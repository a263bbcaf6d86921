/** What the double-quoted-like decoder makes of each kind of sequence, one sequence at a time
    ("Escaped characters" table of the PHP manual's Strings chapter). */
module DecodeFacts {
  import opened PhpChars
  import opened Unescape

  /** A character other than a backslash stands for itself. */
  lemma DecodeLiteral(c: char, rest: string, f: bool)
    requires c != Backslash
    ensures UnescapeDoubleQuotedLike([c] + rest, f) == [c] + UnescapeDoubleQuotedLike(rest, f)
  {
    assert ([c] + rest)[1..] == rest;
  }

  /** `\\`, `\$` and, in double-quoted strings, `\"` stand for their second character. */
  lemma DecodeEscapedChar(c: char, rest: string, f: bool)
    requires c == Backslash || c == Dollar || (c == DoubleQuote && f)
    ensures UnescapeDoubleQuotedLike([Backslash, c] + rest, f) == [c] + UnescapeDoubleQuotedLike(rest, f)
  {
    var u := [Backslash, c] + rest;
    assert u[0] == Backslash && u[1] == c && u[2..] == rest;
    assert SingleCharEscape(c, f) == [c];
    assert DecodeStep(u, 0, f) == Step([c], 2);
  }

  /** A backslash pair that is no escape is kept as written. */
  lemma DecodeUnknownPair(c: char, rest: string, f: bool)
    requires !IsOctalDigit(c) && c != 'x'
    requires IsSingleCharEscape(c) ==> c == DoubleQuote && !f
    ensures UnescapeDoubleQuotedLike([Backslash, c] + rest, f) == [Backslash, c] + UnescapeDoubleQuotedLike(rest, f)
  {
    assert ([Backslash, c] + rest)[2..] == rest;
  }

  /** `\x` without a hexadecimal digit after it is kept as written. */
  lemma DecodeBareHexMark(rest: string, f: bool)
    requires rest == [] || !IsHexDigit(rest[0])
    ensures UnescapeDoubleQuotedLike([Backslash, 'x'] + rest, f) == [Backslash, 'x'] + UnescapeDoubleQuotedLike(rest, f)
  {
    var u := [Backslash, 'x'] + rest;
    assert u[2..] == rest;
    assert |u| > 2 ==> u[2] == rest[0];
  }

  /** A backslash followed by a character that starts no numeric escape: the single-character
      escape, or the pair as written. */
  lemma DecodeSingleCharEscape(c: char, rest: string, f: bool)
    requires !IsOctalDigit(c) && c != 'x'
    ensures UnescapeDoubleQuotedLike([Backslash, c] + rest, f) == SingleCharEscape(c, f) + UnescapeDoubleQuotedLike(rest, f)
  {
    assert ([Backslash, c] + rest)[2..] == rest;
  }

  lemma DecodePairAlone(c: char, f: bool)
    requires !IsOctalDigit(c) && c != 'x'
    ensures UnescapeDoubleQuotedLike([Backslash, c], f) == SingleCharEscape(c, f)
  {
    DecodeSingleCharEscape(c, [], f);
    assert [Backslash, c] + [] == [Backslash, c];
  }

  /** The single-character escapes, in both modes; `\"` is an escape in double-quoted strings
      only. */
  lemma SingleCharEscapeTable(f: bool)
    ensures UnescapeDoubleQuotedLike([Backslash, 'n'], f) == [Newline]
    ensures UnescapeDoubleQuotedLike([Backslash, 'r'], f) == [CarriageReturn]
    ensures UnescapeDoubleQuotedLike([Backslash, 't'], f) == [Tab]
    ensures UnescapeDoubleQuotedLike([Backslash, 'v'], f) == [VerticalTab]
    ensures UnescapeDoubleQuotedLike([Backslash, 'e'], f) == [EscapeChar]
    ensures UnescapeDoubleQuotedLike([Backslash, 'f'], f) == [FormFeed]
    ensures UnescapeDoubleQuotedLike([Backslash, Backslash], f) == [Backslash]
    ensures UnescapeDoubleQuotedLike([Backslash, Dollar], f) == [Dollar]
    ensures UnescapeDoubleQuotedLike([Backslash, DoubleQuote], f) == (if f then [DoubleQuote] else [Backslash, DoubleQuote])
  {
    DecodePairAlone('n', f);
    DecodePairAlone('r', f);
    DecodePairAlone('t', f);
    DecodePairAlone('v', f);
    DecodePairAlone('e', f);
    DecodePairAlone('f', f);
    DecodePairAlone(Backslash, f);
    DecodePairAlone(Dollar, f);
    DecodePairAlone(DoubleQuote, f);
  }

  /** A backslash and one to three octal digits stand for the character with that octal code;
      what follows is decoded on its own. */
  lemma DecodeOctalEscape(ds: string, rest: string, f: bool)
    requires 1 <= |ds| <= 3 && forall i | 0 <= i < |ds| :: IsOctalDigit(ds[i])
    requires |ds| < 3 ==> rest == [] || !IsOctalDigit(rest[0])
    ensures UnescapeDoubleQuotedLike([Backslash] + ds + rest, f) == [OctalEscapeChar(ds)] + UnescapeDoubleQuotedLike(rest, f)
  {
    var u := [Backslash] + ds + rest;
    assert u[1] == ds[0];
    assert u[1..1 + |ds|] == ds;
    assert |ds| < 3 && |rest| > 0 ==> u[1 + |ds|] == rest[0];
    assert OctalRunAt(u, 1) == |ds|;
    assert u[1 + |ds|..] == rest;
  }

  /** `\x` and one or two hexadecimal digits stand for the character with that hexadecimal
      code; what follows is decoded on its own. */
  lemma DecodeHexEscape(ds: string, rest: string, f: bool)
    requires 1 <= |ds| <= 2 && forall i | 0 <= i < |ds| :: IsHexDigit(ds[i])
    requires |ds| < 2 ==> rest == [] || !IsHexDigit(rest[0])
    ensures UnescapeDoubleQuotedLike([Backslash, 'x'] + ds + rest, f) == [HexEscapeChar(ds)] + UnescapeDoubleQuotedLike(rest, f)
  {
    var u := [Backslash, 'x'] + ds + rest;
    assert u[2] == ds[0];
    assert u[2..2 + |ds|] == ds;
    assert |ds| < 2 && |rest| > 0 ==> u[2 + |ds|] == rest[0];
    assert HexRunAt(u, 2) == |ds|;
    assert u[2 + |ds|..] == rest;
  }

  /** A lone backslash at the end is kept. */
  lemma DecodeTrailingBackslash(f: bool)
    ensures UnescapeDoubleQuotedLike([Backslash], f) == [Backslash]
  {
    assert DecodeStep([Backslash], 0, f) == Step([Backslash], 1);
  }
}
