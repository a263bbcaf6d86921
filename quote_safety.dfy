/** Whether escaped text can be put between quotes: PHP's scanner ends a quoted literal at the
    first quote that is not taken by a backslash, and a backslash always takes the character
    after it (sections "Single quoted" and "Double quoted" of the Strings chapter). */
module QuoteSafety {
  import opened PhpChars
  import opened Unescape
  import opened Escape
  import opened RoundTrip

  /** `x` scans as the content of one double-quoted literal: every `"` is taken by a backslash
      and no backslash is left at the end. */
  predicate StaysInsideDoubleQuotes(x: string)
    decreases |x|
  {
    if x == [] then true
    else if x[0] == Backslash then |x| >= 2 && StaysInsideDoubleQuotes(x[2..])
    else x[0] != DoubleQuote && StaysInsideDoubleQuotes(x[1..])
  }

  /** The double-quoted escaper as written lets a quote out: the text `\"` is escaped to `\\"`,
      whose backslash pair is one escape and whose quote then ends the literal. */
  lemma EscapeDoubleQuotedLetsQuoteOut()
    ensures EscapeDoubleQuoted("\\\"") == "\\\\\""
    ensures !StaysInsideDoubleQuotes(EscapeDoubleQuoted("\\\""))
  {
    var s := "\\\"";
    EscapeDoubleQuotedForm(s);
    assert EscapedForm(s, false, DoubleQuotedConfig) == [Backslash, Backslash, DoubleQuote] by {
      assert s[1..] == [DoubleQuote] && [DoubleQuote][1..] == [];
      assert EscapedPiece(s, false, DoubleQuotedConfig) == [Backslash] by {
        assert !IsEscapeTailChar(DoubleQuote, false) && !IsOctalDigit(DoubleQuote);
        assert !StartsEscapeTail(s[1..], false);
      }
      assert EscapedForm([DoubleQuote], false, DoubleQuotedConfig) == [Backslash, DoubleQuote];
    }
    var x := [Backslash, Backslash, DoubleQuote];
    assert x[2..] == [DoubleQuote] && [DoubleQuote][1..] == [];
  }

  lemma StaysCons(c: char, x: string)
    requires c != Backslash && c != DoubleQuote
    ensures StaysInsideDoubleQuotes([c] + x) == StaysInsideDoubleQuotes(x)
  {
    assert ([c] + x)[1..] == x;
  }

  lemma StaysPair(c: char, x: string)
    ensures StaysInsideDoubleQuotes([Backslash, c] + x) == StaysInsideDoubleQuotes(x)
  {
    assert ([Backslash, c] + x)[2..] == x;
  }

  /** The corrected escaper's output always stays inside the quotes. */
  lemma {:induction false} CorrectedFormStaysInside(s: string, afterBrace: bool)
    ensures StaysInsideDoubleQuotes(EscapedForm(s, afterBrace, CorrectedDoubleQuotedConfig))
    decreases |s|
  {
    if s != [] {
      var cfg := CorrectedDoubleQuotedConfig;
      var piece := EscapedPiece(s, afterBrace, cfg);
      var rest := EscapedForm(s[1..], s[0] == '{', cfg);
      assert EscapedForm(s, afterBrace, cfg) == piece + rest;
      if |piece| == 2 {
        assert piece == [Backslash, s[0]];
        CorrectedFormStaysInside(s[1..], s[0] == '{');
        StaysPair(s[0], rest);
      } else if s[0] != Backslash {
        assert piece == [s[0]] && s[0] != DoubleQuote;
        CorrectedFormStaysInside(s[1..], s[0] == '{');
        StaysCons(s[0], rest);
      } else {
        assert piece == [Backslash] && |s| >= 2;
        var t := s[1..];
        assert t[0] == s[1] && t[1..] == s[2..];
        assert t[0] != Backslash && t[0] != Dollar && t[0] != DoubleQuote;
        var rest2 := EscapedForm(s[2..], s[1] == '{', cfg);
        assert EscapedPiece(t, false, cfg) == [t[0]];
        assert rest == [t[0]] + rest2;
        CorrectedFormStaysInside(s[2..], s[1] == '{');
        StaysPair(t[0], rest2);
        assert piece + rest == [Backslash, t[0]] + rest2;
      }
    }
  }

  /** What the corrected escaper makes can be put between double quotes ... */
  lemma EscapeDoubleQuotedCorrectedStaysInside(s: string)
    ensures StaysInsideDoubleQuotes(EscapeDoubleQuotedCorrected(s))
  {
    EscapeDoubleQuotedCorrectedForm(s);
    CorrectedFormStaysInside(s, false);
  }

  /** ... and decodes to the text it was made from. */
  lemma EscapeDoubleQuotedCorrectedRoundTrip(s: string)
    ensures UnescapeDoubleQuoted(EscapeDoubleQuotedCorrected(s)) == s
  {
    EscapeDoubleQuotedCorrectedForm(s);
    FormRoundTrip(s, false, CorrectedDoubleQuotedConfig);
  }

  /** `x` scans as the content of one single-quoted literal. */
  predicate StaysInsideSingleQuotes(x: string)
    decreases |x|
  {
    if x == [] then true
    else if x[0] == Backslash then |x| >= 2 && StaysInsideSingleQuotes(x[2..])
    else x[0] != SingleQuote && StaysInsideSingleQuotes(x[1..])
  }

  /** The single-quoted escaper as written lets a quote out: the text `\\'` is escaped to
      `\\\\'`, two backslash pairs and then a quote that ends the literal. */
  lemma EscapeSingleQuotedLetsQuoteOut()
    ensures EscapeSingleQuoted("\\\\'") == "\\\\\\\\'"
    ensures !StaysInsideSingleQuotes(EscapeSingleQuoted("\\\\'"))
  {
    var s := "\\\\'";
    assert s[1..] == [Backslash, SingleQuote] && s[2..] == [SingleQuote];
    assert EscapeSingleQuoted([SingleQuote]) == [Backslash, SingleQuote];
    assert EscapeSingleQuoted(s[1..]) == [Backslash, Backslash, Backslash, SingleQuote];
    var x := EscapeSingleQuoted(s);
    assert x == [Backslash, Backslash, Backslash, Backslash, SingleQuote];
    assert x[2..][2..] == [SingleQuote];
    assert !StaysInsideSingleQuotes(x[2..]);
  }

  /** The concatenation intention's escaper, the corrected single-quoted one, always stays inside
      the quotes. */
  lemma {:induction false} EscapeBackslashesAndQuotesStaysInside(s: string)
    ensures StaysInsideSingleQuotes(EscapeBackslashesAndQuotes(s))
    decreases |s|
  {
    if s != [] {
      var rest := EscapeBackslashesAndQuotes(s[1..]);
      EscapeBackslashesAndQuotesStaysInside(s[1..]);
      if s[0] == Backslash || s[0] == SingleQuote {
        assert ([Backslash, s[0]] + rest)[2..] == rest;
      } else {
        assert ([s[0]] + rest)[1..] == rest;
      }
    }
  }
}
