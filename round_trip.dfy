/** What the escapers and the decoders do together: decoding the escaped text gives the text
    back, for double-quoted strings and heredocs on every text; for single-quoted strings only
    on restricted texts. */
module RoundTrip {
  import opened PhpChars
  import opened StringOps
  import opened Unescape
  import opened Escape
  import opened DecodeFacts

  lemma Regroup2(a: char, b: char, rest: string)
    ensures [a] + ([b] + rest) == [a, b] + rest
  {
  }

  lemma Regroup3(a: char, b: char, c: char, rest: string)
    ensures [a] + ([b, c] + rest) == [a, b] + ([c] + rest)
  {
  }

  /** A backslash that the escaper leaves single, and the text after it. */
  lemma {:induction false} UndoubledBackslashRoundTrip(s: string, cfg: EscapeConfig)
    requires cfg.atEnd == cfg.quotes
    requires |s| >= 2 && s[0] == Backslash && !DoublesBackslash(s, cfg.atEnd, cfg.quoteInTail)
    requires UnescapeDoubleQuotedLike(EscapedForm(s[2..], s[1] == '{', cfg), cfg.quotes) == s[2..]
    ensures UnescapeDoubleQuotedLike([Backslash] + EscapedForm(s[1..], false, cfg), cfg.quotes) == s
  {
    assert s == [Backslash, s[1]] + s[2..];
    var dq := cfg.quotes;
    var t := s[1..];
    assert t[0] == s[1] && t[1..] == s[2..];
    var rest := EscapedForm(s[2..], s[1] == '{', cfg);
    var pt := EscapedPiece(t, false, cfg);
    assert EscapedForm(t, false, cfg) == pt + rest;
    if |pt| == 2 {
      assert pt == [Backslash, DoubleQuote] && dq;
      Regroup3(Backslash, Backslash, DoubleQuote, rest);
      DecodeEscapedChar(Backslash, [DoubleQuote] + rest, dq);
      DecodeLiteral(DoubleQuote, rest, dq);
    } else if t[0] == 'x' {
      assert pt == ['x'];
      Regroup2(Backslash, 'x', rest);
      if rest != [] {
        assert rest[0] == EscapedPiece(t[1..], t[0] == '{', cfg)[0];
      }
      DecodeBareHexMark(rest, dq);
    } else {
      assert pt == [t[0]];
      Regroup2(Backslash, t[0], rest);
      DecodeUnknownPair(t[0], rest, dq);
    }
  }

  /** Decoding the character-by-character form gives the text back. */
  lemma {:induction false} FormRoundTrip(s: string, afterBrace: bool, cfg: EscapeConfig)
    requires cfg.atEnd == cfg.quotes
    ensures UnescapeDoubleQuotedLike(EscapedForm(s, afterBrace, cfg), cfg.quotes) == s
    decreases |s|
  {
    if s != [] {
      var dq := cfg.quotes;
      var piece := EscapedPiece(s, afterBrace, cfg);
      var rest := EscapedForm(s[1..], s[0] == '{', cfg);
      assert EscapedForm(s, afterBrace, cfg) == piece + rest;
      assert s == [s[0]] + s[1..];
      if |piece| == 2 {
        assert piece == [Backslash, s[0]];
        FormRoundTrip(s[1..], s[0] == '{', cfg);
        DecodeEscapedChar(s[0], rest, dq);
      } else if s[0] != Backslash {
        assert piece == [s[0]];
        FormRoundTrip(s[1..], s[0] == '{', cfg);
        DecodeLiteral(s[0], rest, dq);
      } else if |s| == 1 {
        assert piece + rest == [Backslash];
      } else {
        assert piece == [Backslash];
        FormRoundTrip(s[2..], s[1] == '{', cfg);
        UndoubledBackslashRoundTrip(s, cfg);
      }
    }
  }

  /** Double-quoted content made by `escapePhpDoubleQuotedStringContent` decodes to the text
      it was made from. */
  lemma EscapeDoubleQuotedRoundTrip(s: string)
    ensures UnescapeDoubleQuoted(EscapeDoubleQuoted(s)) == s
  {
    EscapeDoubleQuotedForm(s);
    FormRoundTrip(s, false, DoubleQuotedConfig);
  }

  /** Heredoc content made by `escapePhpHeredocContent` decodes to the text it was made from. */
  lemma EscapeHeredocRoundTrip(s: string)
    ensures UnescapeHeredoc(EscapeHeredoc(s)) == s
  {
    EscapeHeredocForm(s);
    FormRoundTrip(s, false, HeredocConfig);
  }

  /** No backslash of `s` is directly followed by another one. */
  predicate NoDoubledBackslash(s: string) {
    forall i | 0 <= i < |s| - 1 :: !(s[i] == Backslash && s[i + 1] == Backslash)
  }

  /** The second replacement of the single-quoted decoder undoes escaping every quote. */
  lemma {:induction false} UnescapeQuotesOfEscapedQuotes(s: string)
    ensures ReplacePair(ReplaceChar(s, SingleQuote, [Backslash, SingleQuote]), Backslash, SingleQuote, [SingleQuote]) == s
  {
    if s != [] {
      var w := ReplaceChar(s[1..], SingleQuote, [Backslash, SingleQuote]);
      UnescapeQuotesOfEscapedQuotes(s[1..]);
      if s[0] == SingleQuote {
        ReplacePairHit(w, Backslash, SingleQuote, [SingleQuote]);
      } else {
        assert s[1..] != [] ==> w[0] == (if s[1] == SingleQuote then Backslash else s[1]);
        ReplacePairKeep(s[0], w, Backslash, SingleQuote, [SingleQuote]);
      }
      assert s == [s[0]] + s[1..];
    }
  }

  /** On a text without doubled backslashes, the first replacement of the single-quoted decoder
      turns the escaped text into the text with every quote escaped. */
  lemma {:induction false} UnescapeBackslashesOfEscaped(s: string)
    requires NoDoubledBackslash(s)
    ensures ReplacePair(EscapeSingleQuoted(s), Backslash, Backslash, [Backslash])
         == ReplaceChar(s, SingleQuote, [Backslash, SingleQuote])
  {
    if s != [] {
      var w := EscapeSingleQuoted(s[1..]);
      assert NoDoubledBackslash(s[1..]) by {
        forall i | 0 <= i < |s[1..]| - 1 ensures !(s[1..][i] == Backslash && s[1..][i + 1] == Backslash) {
          assert s[1..][i] == s[i + 1] && s[1..][i + 1] == s[i + 2];
        }
      }
      UnescapeBackslashesOfEscaped(s[1..]);
      var rc := ReplaceChar(s[1..], SingleQuote, [Backslash, SingleQuote]);
      if s[0] == SingleQuote {
        ReplacePairKeep(Backslash, [SingleQuote] + w, Backslash, Backslash, [Backslash]);
        ReplacePairKeep(SingleQuote, w, Backslash, Backslash, [Backslash]);
        Regroup2(Backslash, SingleQuote, w);
      } else if s[0] == Backslash && (|s| == 1 || s[1] == SingleQuote) {
        ReplacePairHit(w, Backslash, Backslash, [Backslash]);
      } else {
        if s[0] == Backslash {
          assert s[1] != Backslash && s[1] != SingleQuote;
          assert w[0] == s[1];
        }
        ReplacePairKeep(s[0], w, Backslash, Backslash, [Backslash]);
      }
    }
  }

  /** Single-quoted content made by `escapePhpSingleQuotedStringContent` decodes to the text it
      was made from, provided no backslash of the text is followed by another backslash. */
  lemma EscapeSingleQuotedRoundTrip(s: string)
    requires NoDoubledBackslash(s)
    ensures UnescapeSingleQuoted(EscapeSingleQuoted(s)) == s
  {
    UnescapeBackslashesOfEscaped(s);
    UnescapeQuotesOfEscapedQuotes(s);
  }

  /** The first replacement of the single-quoted decoder undoes the doubling of backslashes
      by the concatenation intention's escaper. */
  lemma {:induction false} UnescapeBackslashesOfAllEscaped(s: string)
    ensures ReplacePair(EscapeBackslashesAndQuotes(s), Backslash, Backslash, [Backslash])
         == ReplaceChar(s, SingleQuote, [Backslash, SingleQuote])
  {
    if s != [] {
      var w := EscapeBackslashesAndQuotes(s[1..]);
      UnescapeBackslashesOfAllEscaped(s[1..]);
      if s[0] == Backslash {
        ReplacePairHit(w, Backslash, Backslash, [Backslash]);
      } else if s[0] == SingleQuote {
        ReplacePairKeep(Backslash, [SingleQuote] + w, Backslash, Backslash, [Backslash]);
        ReplacePairKeep(SingleQuote, w, Backslash, Backslash, [Backslash]);
        Regroup2(Backslash, SingleQuote, w);
      } else {
        ReplacePairKeep(s[0], w, Backslash, Backslash, [Backslash]);
      }
    }
  }

  /** Single-quoted content made by the concatenation intention's escaper decodes to the text
      it was made from, whatever the text. */
  lemma EscapeBackslashesAndQuotesRoundTrip(s: string)
    ensures UnescapeSingleQuoted(EscapeBackslashesAndQuotes(s)) == s
  {
    UnescapeBackslashesOfAllEscaped(s);
    UnescapeQuotesOfEscapedQuotes(s);
  }

  /** Where the single-quoted escaper is right, the corrected one denotes the same text. */
  lemma SingleQuotedEscapersAgree(s: string)
    requires NoDoubledBackslash(s)
    ensures UnescapeSingleQuoted(EscapeSingleQuoted(s)) == UnescapeSingleQuoted(EscapeBackslashesAndQuotes(s))
  {
    EscapeSingleQuotedRoundTrip(s);
    EscapeBackslashesAndQuotesRoundTrip(s);
  }

  /** Without that proviso the round trip fails: `\\a` is left as it is by the escaper and
      decodes to `\a`. */
  lemma EscapeSingleQuotedLosesBackslash()
    ensures EscapeSingleQuoted("\\\\a") == "\\\\a"
    ensures UnescapeSingleQuoted("\\\\a") == "\\a"
  {
    var s := "\\\\a";
    assert s[1..] == "\\a" && s[2..] == "a";
    assert EscapeSingleQuoted("a") == "a";
    assert EscapeSingleQuoted(s[1..]) == "\\a";
    ReplacePairHit("a", Backslash, Backslash, [Backslash]);
    assert s == [Backslash, Backslash] + "a";
    assert ReplacePair("a", Backslash, Backslash, [Backslash]) == "a";
    ReplacePairKeep(Backslash, "a", Backslash, SingleQuote, [SingleQuote]);
    assert ReplacePair("a", Backslash, SingleQuote, [SingleQuote]) == "a";
    assert "\\a" == [Backslash] + "a";
  }
}
