/** The two older standalone intentions that turn a single-quoted literal into a double-quoted
    one, each with its own double-quoted escaper. Where a backslash starts an escape sequence,
    the escaper puts a second backslash before it and skips the whole sequence; then every `"` and
    every `$` gets a backslash. The first variant also counts the end of the text as a sequence,
    and the second does not. */
module SingleToDouble {
  import opened PhpChars
  import opened StringOps
  import opened Unescape
  import opened RoundTrip
  import opened QuoteSafety
  import opened Literals
  import DecodeFacts

  /** What the escaper recognises after a backslash, `s` being the text after it: one of
      `n r t v e f \ $ "`, an octal digit, `x` with a hexadecimal digit, or, with `atEnd`, the
      end of the text. */
  predicate IsOldTail(s: string, atEnd: bool) {
    if s == [] then atEnd
    else
      var c := s[0];
      c == 'n' || c == 'r' || c == 't' || c == 'v' || c == 'e' || c == 'f' || c == Backslash
      || c == Dollar || c == DoubleQuote || IsOctalDigit(c) || (c == 'x' && |s| >= 2 && IsHexDigit(s[1]))
  }

  /** The consuming replacement, left to right. A backslash pair is one sequence: it gets its
      extra backslash and the second backslash is skipped. Any other recognised sequence gets its
      extra backslash too; its tail holds no backslash, so skipping the tail or reading on from
      it gives the same text. */
  function OldEscapeSequences(s: string, atEnd: bool): (r: string)
    ensures Backslash !in s ==> r == s
    decreases |s|
  {
    if s == [] then []
    else if s[0] == Backslash && |s| >= 2 && s[1] == Backslash then
      [Backslash, Backslash, Backslash] + OldEscapeSequences(s[2..], atEnd)
    else if s[0] == Backslash && IsOldTail(s[1..], atEnd) then
      [Backslash, Backslash] + OldEscapeSequences(s[1..], atEnd)
    else
      assert Backslash !in s ==> Backslash !in s[1..];
      [s[0]] + OldEscapeSequences(s[1..], atEnd)
  }

  /** `escapePhpDoubleQuotedStringContent` of the first variant (`atEnd`) and
      `EscapeForPhpDoubleQuotedString` of the second (not): the sequences, then every `"`, then
      every `$`. */
  function OldEscapeDoubleQuoted(s: string, atEnd: bool): (r: string)
    ensures (Backslash !in s && DoubleQuote !in s && Dollar !in s) ==> r == s
  {
    ReplaceChar(ReplaceChar(OldEscapeSequences(s, atEnd), DoubleQuote, [Backslash, DoubleQuote]), Dollar, [Backslash, Dollar])
  }

  /** The escaper's output for the first character of `s`, when it is not the start of a
      backslash pair. */
  function OldPiece(s: string, atEnd: bool): string
    requires s != []
  {
    if s[0] == DoubleQuote then [Backslash, DoubleQuote]
    else if s[0] == Dollar then [Backslash, Dollar]
    else if s[0] == Backslash && IsOldTail(s[1..], atEnd) then [Backslash, Backslash]
    else [s[0]]
  }

  /** The escaper's output built character by character. */
  function OldForm(s: string, atEnd: bool): (r: string)
    ensures |r| >= |s|
    ensures (Backslash !in s && DoubleQuote !in s && Dollar !in s) ==> r == s
    decreases |s|
  {
    if s == [] then []
    else if s[0] == Backslash && |s| >= 2 && s[1] == Backslash then
      [Backslash, Backslash, Backslash] + OldForm(s[2..], atEnd)
    else
      assert (Backslash !in s && DoubleQuote !in s && Dollar !in s) ==>
        Backslash !in s[1..] && DoubleQuote !in s[1..] && Dollar !in s[1..] && OldPiece(s, atEnd) == [s[0]];
      OldPiece(s, atEnd) + OldForm(s[1..], atEnd)
  }

  /** Both replacements of single characters, applied to a text. */
  function QuoteAndDollar(s: string): string {
    ReplaceChar(ReplaceChar(s, DoubleQuote, [Backslash, DoubleQuote]), Dollar, [Backslash, Dollar])
  }

  lemma QuoteAndDollarConcat(a: string, b: string)
    ensures QuoteAndDollar(a + b) == QuoteAndDollar(a) + QuoteAndDollar(b)
  {
    var q := [Backslash, DoubleQuote];
    ReplaceCharConcat(a, b, DoubleQuote, q);
    ReplaceCharConcat(ReplaceChar(a, DoubleQuote, q), ReplaceChar(b, DoubleQuote, q), Dollar, [Backslash, Dollar]);
  }

  lemma QuoteAndDollarOfChar(c: char)
    ensures QuoteAndDollar([c]) == (if c == DoubleQuote then [Backslash, DoubleQuote]
                                    else if c == Dollar then [Backslash, Dollar] else [c])
  {
    assert [c][1..] == [];
    if c == DoubleQuote {
      assert [Backslash, DoubleQuote] == [Backslash] + [DoubleQuote];
      ReplaceCharConcat([Backslash], [DoubleQuote], Dollar, [Backslash, Dollar]);
    }
  }

  lemma QuoteAndDollarOfBackslashes(n: nat)
    requires n == 2 || n == 3
    ensures n == 2 ==> QuoteAndDollar([Backslash, Backslash]) == [Backslash, Backslash]
    ensures n == 3 ==> QuoteAndDollar([Backslash, Backslash, Backslash]) == [Backslash, Backslash, Backslash]
  {
  }

  /** The three replacements give the character-by-character form. */
  lemma {:induction false} OldEscapeForm(s: string, atEnd: bool)
    ensures OldEscapeDoubleQuoted(s, atEnd) == OldForm(s, atEnd)
    decreases |s|
  {
    if s != [] {
      if s[0] == Backslash && |s| >= 2 && s[1] == Backslash {
        OldEscapeForm(s[2..], atEnd);
        QuoteAndDollarConcat([Backslash, Backslash, Backslash], OldEscapeSequences(s[2..], atEnd));
        QuoteAndDollarOfBackslashes(3);
      } else if s[0] == Backslash && IsOldTail(s[1..], atEnd) {
        OldEscapeForm(s[1..], atEnd);
        QuoteAndDollarConcat([Backslash, Backslash], OldEscapeSequences(s[1..], atEnd));
        QuoteAndDollarOfBackslashes(2);
      } else {
        OldEscapeForm(s[1..], atEnd);
        QuoteAndDollarConcat([s[0]], OldEscapeSequences(s[1..], atEnd));
        QuoteAndDollarOfChar(s[0]);
      }
    }
  }

  /** The form starts with the text's first character or with an added backslash. */
  lemma OldFormFirst(u: string, atEnd: bool)
    requires u != []
    ensures OldForm(u, atEnd) != [] && (OldForm(u, atEnd)[0] == u[0] || OldForm(u, atEnd)[0] == Backslash)
  {
    if !(u[0] == Backslash && |u| >= 2 && u[1] == Backslash) {
      assert OldForm(u, atEnd) == OldPiece(u, atEnd) + OldForm(u[1..], atEnd);
    }
  }

  /** A single backslash the escaper leaves alone, followed by a character that is not a tail:
      decoding keeps both. */
  lemma {:induction false} UntailedBackslashRoundTrip(s: string, atEnd: bool)
    requires |s| >= 2 && s[0] == Backslash && !IsOldTail(s[1..], atEnd)
    requires UnescapeDoubleQuoted(OldForm(s[2..], atEnd)) == s[2..]
    ensures UnescapeDoubleQuoted([Backslash] + OldForm(s[1..], atEnd)) == s
  {
    var c := s[1];
    var t := s[1..];
    assert t[0] == c && t[1..] == s[2..];
    var rest := OldForm(s[2..], atEnd);
    assert OldForm(t, atEnd) == [c] + rest;
    assert [Backslash] + ([c] + rest) == [Backslash, c] + rest;
    assert s == [Backslash, c] + s[2..];
    if c == 'x' {
      if rest != [] {
        OldFormFirst(s[2..], atEnd);
      }
      DecodeFacts.DecodeBareHexMark(rest, true);
    } else {
      DecodeFacts.DecodeUnknownPair(c, rest, true);
    }
  }

  /** Decoding the character-by-character form gives the text back when no backslash of the
      text is followed by another. */
  lemma {:induction false} OldFormRoundTrip(s: string, atEnd: bool)
    requires NoDoubledBackslash(s)
    ensures UnescapeDoubleQuoted(OldForm(s, atEnd)) == s
    decreases |s|
  {
    if s != [] {
      assert s[0] == Backslash && |s| >= 2 ==> s[1] != Backslash;
      var tail := s[1..];
      assert NoDoubledBackslash(tail) by {
        forall i | 0 <= i < |tail| - 1 ensures !(tail[i] == Backslash && tail[i + 1] == Backslash) {
          assert tail[i] == s[i + 1] && tail[i + 1] == s[i + 2];
        }
      }
      var rest := OldForm(tail, atEnd);
      assert OldForm(s, atEnd) == OldPiece(s, atEnd) + rest;
      assert s == [s[0]] + tail;
      if s[0] == DoubleQuote || s[0] == Dollar || (s[0] == Backslash && IsOldTail(tail, atEnd)) {
        OldFormRoundTrip(tail, atEnd);
        DecodeFacts.DecodeEscapedChar(s[0], rest, true);
      } else if s[0] != Backslash {
        OldFormRoundTrip(tail, atEnd);
        DecodeFacts.DecodeLiteral(s[0], rest, true);
      } else if |s| == 1 {
        DecodeFacts.DecodeTrailingBackslash(true);
      } else {
        var tail2 := s[2..];
        assert NoDoubledBackslash(tail2) by {
          forall i | 0 <= i < |tail2| - 1 ensures !(tail2[i] == Backslash && tail2[i + 1] == Backslash) {
            assert tail2[i] == s[i + 2] && tail2[i + 1] == s[i + 3];
          }
        }
        OldFormRoundTrip(tail2, atEnd);
        UntailedBackslashRoundTrip(s, atEnd);
      }
    }
  }

  /** Both escapers are undone by the double-quoted decoder on texts without a backslash
      followed by another. */
  lemma OldEscapeRoundTrip(s: string, atEnd: bool)
    requires NoDoubledBackslash(s)
    ensures UnescapeDoubleQuoted(OldEscapeDoubleQuoted(s, atEnd)) == s
  {
    OldEscapeForm(s, atEnd);
    OldFormRoundTrip(s, atEnd);
  }

  /** Without that proviso the round trip fails: the escaper gives `\\n` one backslash more,
      `\\\n`, which decodes to a backslash and a newline. */
  lemma OldEscapeLosesBackslash(atEnd: bool)
    ensures OldEscapeDoubleQuoted("\\\\n", atEnd) == "\\\\\\n"
    ensures UnescapeDoubleQuoted("\\\\\\n") == [Backslash, Newline]
  {
    var s := "\\\\n";
    OldEscapeForm(s, atEnd);
    assert s[2..] == "n";
    assert OldForm("n", atEnd) == "n" by {
      assert "n"[1..] == [];
    }
    var x := "\\\\\\n";
    assert x == [Backslash, Backslash] + [Backslash, 'n'];
    DecodeFacts.DecodeEscapedChar(Backslash, [Backslash, 'n'], true);
    DecodeFacts.DecodePairAlone('n', true);
  }

  /** The second escaper leaves a final backslash single, and it then escapes the closing quote
      of the literal. */
  lemma TrailingBackslashLetsQuoteOut()
    ensures OldEscapeDoubleQuoted("a\\", false) == "a\\"
    ensures !StaysInsideDoubleQuotes(OldEscapeDoubleQuoted("a\\", false))
  {
    var s := "a\\";
    OldEscapeForm(s, false);
    assert s[1..] == [Backslash] && [Backslash][1..] == [];
    assert OldForm([Backslash], false) == [Backslash];
    assert OldForm(s, false) == ['a'] + [Backslash];
    assert "a\\"[1..] == [Backslash];
  }

  // ---- the conversions ----

  /** The content of the single-quoted literal, decoded: its first and last characters dropped,
      then every `\\` and every `\'` replaced. */
  function OldSingleQuotedContent(literal: string): (content: string)
    requires |literal| >= 2
    ensures content == UnescapeSingleQuoted(QuotedContent(literal))
  {
    var escaped := literal[1..|literal| - 1];
    ReplacePair(ReplacePair(escaped, Backslash, Backslash, [Backslash]), Backslash, SingleQuote, [SingleQuote])
  }

  /** The double-quoted literal the intention builds from a single-quoted one (`atEnd` chooses
      the variant); it denotes the same text when no backslash of that text is followed by
      another. */
  function ReplaceQuotesWithEscaping(literal: string, atEnd: bool): (r: string)
    requires |literal| >= 2
    ensures |r| >= 2 && r[0] == DoubleQuote && r[|r| - 1] == DoubleQuote
    ensures NoDoubledBackslash(OldSingleQuotedContent(literal)) ==>
      UnescapeDoubleQuoted(QuotedContent(r)) == OldSingleQuotedContent(literal)
  {
    var content := OldSingleQuotedContent(literal);
    if NoDoubledBackslash(content) then
      OldEscapeRoundTrip(content, atEnd);
      DoubleQuotedLiteral(OldEscapeDoubleQuoted(content, atEnd))
    else DoubleQuotedLiteral(OldEscapeDoubleQuoted(content, atEnd))
  }

  /** The same conversion built with the corrected double-quoted escaper: the new literal keeps
      its content inside its quotes and denotes the single-quoted literal's text, whatever it is. */
  function ReplaceQuotesWithEscapingCorrected(literal: string): (r: string)
    requires |literal| >= 2
    ensures |r| >= 2 && r[0] == DoubleQuote && r[|r| - 1] == DoubleQuote
    ensures StaysInsideDoubleQuotes(QuotedContent(r))
    ensures UnescapeDoubleQuoted(QuotedContent(r)) == OldSingleQuotedContent(literal)
  {
    DoubleQuotedLiteralFromContentCorrected(OldSingleQuotedContent(literal))
  }
}
