/** Encoding text as the content of PHP string literals: the regular-expression chains that
    escape text for double-quoted strings and heredocs, the single-quoted escaper, and the
    nowdoc identity; next to them, a character-by-character description of what the
    double-quoted and heredoc chains produce. */
module Escape {
  import opened PhpChars
  import opened StringOps

  /** A character that completes an escape sequence after a backslash in the look-ahead of the
      escapers: one of `n r t v e f`, a backslash or `$`, and `"` in the variant that includes
      it. */
  predicate IsEscapeTailChar(c: char, quoteInTail: bool) {
    c == 'n' || c == 'r' || c == 't' || c == 'v' || c == 'e' || c == 'f' || c == Backslash || c == Dollar
    || (quoteInTail && c == DoubleQuote)
  }

  /** The look-ahead of the escapers holds at the start of `t` (a tail character, an octal
      digit, or `x` and a hexadecimal digit): the backslash before `t` starts an escape
      sequence. */
  predicate StartsEscapeTail(t: string, quoteInTail: bool) {
    |t| > 0
    && (IsEscapeTailChar(t[0], quoteInTail) || IsOctalDigit(t[0]) || (t[0] == 'x' && |t| > 1 && IsHexDigit(t[1])))
  }

  /** The backslash at the start of `s` is doubled by the first step of the escaper:
      it is followed by an escape tail or, where `atEnd` (the end-of-input alternative),
      ends the text. */
  predicate DoublesBackslash(s: string, atEnd: bool, quoteInTail: bool)
    requires s != []
  {
    s[0] == Backslash && (if |s| == 1 then atEnd else StartsEscapeTail(s[1..], quoteInTail))
  }

  /** First step: a backslash goes in front of every backslash that the look-ahead accepts.
      The look-ahead consumes nothing, so every backslash is judged on what follows it in the
      original text. */
  function EscapeEscapeSequences(s: string, atEnd: bool, quoteInTail: bool): (r: string)
    ensures |r| >= |s|
    ensures s != [] ==> r[0] == s[0]
    ensures Backslash !in s ==> r == s
  {
    if s == [] then []
    else
      (if DoublesBackslash(s, atEnd, quoteInTail) then [Backslash, Backslash] else [s[0]])
      + EscapeEscapeSequences(s[1..], atEnd, quoteInTail)
  }

  /** Second step: a backslash goes in front of every `$` followed by a character that can
      start an identifier; each match takes the `$` and the next character. */
  function EscapeVariables(s: string): (r: string)
    ensures |r| >= |s|
    ensures Dollar !in s ==> r == s
  {
    if |s| >= 2 && s[0] == Dollar && IsIdentifierStart(s[1]) then
      [Backslash, Dollar, s[1]] + EscapeVariables(s[2..])
    else if s == [] then []
    else [s[0]] + EscapeVariables(s[1..])
  }

  /** Third step: the `$` of every `{$` gets a backslash. */
  function EscapeBracedVariables(s: string): (r: string)
    ensures |r| >= |s|
    ensures Dollar !in s ==> r == s
  {
    ReplacePairGrows(s, '{', Dollar, ['{', Backslash, Dollar]);
    ReplacePairAbsent(s, '{', Dollar, ['{', Backslash, Dollar]);
    ReplacePair(s, '{', Dollar, ['{', Backslash, Dollar])
  }

  /** `escapePhpDoubleQuotedStringContent`: the three steps (with the end-of-input alternative), then
      every `"` becomes `\"`. */
  function EscapeDoubleQuoted(s: string): (r: string)
    ensures |r| >= |s|
    ensures Backslash !in s && Dollar !in s && DoubleQuote !in s ==> r == s
  {
    var braced := EscapeBracedVariables(EscapeVariables(EscapeEscapeSequences(s, true, false)));
    ReplaceCharLength(braced, DoubleQuote, [Backslash, DoubleQuote]);
    ReplaceChar(braced, DoubleQuote, [Backslash, DoubleQuote])
  }

  /** `escapePhpHeredocContent`: the three steps, without the end-of-input alternative; quotes are
      left alone. */
  function EscapeHeredoc(s: string): (r: string)
    ensures |r| >= |s|
    ensures Backslash !in s && Dollar !in s ==> r == s
  {
    EscapeBracedVariables(EscapeVariables(EscapeEscapeSequences(s, false, false)))
  }

  /** `escapePhpNowdocContent`: nowdoc content is exact. */
  function EscapeNowdoc(s: string): (r: string)
    ensures r == s
  {
    s
  }

  /** `escapePhpSingleQuotedStringContent`: a backslash goes in front of every `'`, of every
      backslash followed by `'` and of a final backslash. */
  function EscapeSingleQuoted(s: string): (r: string)
    ensures |r| >= |s|
  {
    if s == [] then []
    else
      (if s[0] == SingleQuote || (s[0] == Backslash && (|s| == 1 || s[1] == SingleQuote))
       then [Backslash, s[0]] else [s[0]])
      + EscapeSingleQuoted(s[1..])
  }

  /** `EscapeForPhpSingleQuotedString` of the concatenation intention: a backslash is prefixed
      to every backslash and to every `'`. It is also the single-quoted escaper as evidently
      intended. */
  function EscapeBackslashesAndQuotes(s: string): (r: string)
    ensures |r| == |s| + Count(s, Backslash) + Count(s, SingleQuote)
  {
    if s == [] then []
    else
      (if s[0] == Backslash || s[0] == SingleQuote then [Backslash, s[0]] else [s[0]])
      + EscapeBackslashesAndQuotes(s[1..])
  }

  /** How the escapers are configured: whether `"` completes an escape tail, whether a final
      backslash is doubled, and whether quotes are escaped. */
  datatype EscapeConfig = EscapeConfig(quoteInTail: bool, atEnd: bool, quotes: bool)

  const DoubleQuotedConfig := EscapeConfig(false, true, true)
  const HeredocConfig := EscapeConfig(false, false, false)

  /** What the first character of `s` becomes, where `afterBrace` says that the character
      before it was `{`:
      - a backslash is doubled exactly when it starts an escape sequence (or ends the text);
      - a `$` is escaped exactly when a variable name follows it or a `{` precedes it;
      - a `"` is escaped when quotes are;
      - anything else is kept. */
  function EscapedPiece(s: string, afterBrace: bool, cfg: EscapeConfig): (piece: string)
    requires s != []
    ensures 1 <= |piece| <= 2 && piece[|piece| - 1] == s[0]
    ensures |piece| == 2 <==> piece[0] == Backslash && piece != [Backslash]
  {
    var c := s[0];
    if c == Backslash then
      if DoublesBackslash(s, cfg.atEnd, cfg.quoteInTail) then [Backslash, Backslash] else [Backslash]
    else if c == Dollar then
      if (|s| > 1 && IsIdentifierStart(s[1])) || afterBrace then [Backslash, Dollar] else [Dollar]
    else if c == DoubleQuote && cfg.quotes then [Backslash, DoubleQuote]
    else [c]
  }

  /** The escaped text, character by character. */
  function EscapedForm(s: string, afterBrace: bool, cfg: EscapeConfig): (r: string)
    ensures |r| >= |s|
  {
    if s == [] then [] else EscapedPiece(s, afterBrace, cfg) + EscapedForm(s[1..], s[0] == '{', cfg)
  }

  lemma VariablesCons(c: char, w: string)
    requires c != Dollar
    ensures EscapeVariables([c] + w) == [c] + EscapeVariables(w)
  {
    assert ([c] + w)[1..] == w;
  }

  lemma VariablesDollar(w: string)
    ensures EscapeVariables([Dollar] + w)
         == (if w != [] && IsIdentifierStart(w[0]) then [Backslash, Dollar] else [Dollar]) + EscapeVariables(w)
  {
    var u := [Dollar] + w;
    if w != [] && IsIdentifierStart(w[0]) {
      assert u[1] == w[0] && u[2..] == w[1..];
      assert EscapeVariables(u) == [Backslash, Dollar, w[0]] + EscapeVariables(w[1..]);
      assert w[0] != Dollar;
      assert EscapeVariables(w) == [w[0]] + EscapeVariables(w[1..]);
      assert [Backslash, Dollar, w[0]] == [Backslash, Dollar] + [w[0]];
    } else {
      assert u[1..] == w;
    }
  }

  /** The first two steps, one character at a time. */
  lemma EscapeVariablesStep(s: string, atEnd: bool, quoteInTail: bool)
    requires s != []
    ensures var e := EscapeVariables(EscapeEscapeSequences(s, atEnd, quoteInTail));
      e == (if DoublesBackslash(s, atEnd, quoteInTail) then [Backslash, Backslash]
            else if s[0] == Dollar && |s| > 1 && IsIdentifierStart(s[1]) then [Backslash, Dollar]
            else [s[0]])
           + EscapeVariables(EscapeEscapeSequences(s[1..], atEnd, quoteInTail))
  {
    var w := EscapeEscapeSequences(s[1..], atEnd, quoteInTail);
    var d := DoublesBackslash(s, atEnd, quoteInTail);
    assert EscapeEscapeSequences(s, atEnd, quoteInTail) == (if d then [Backslash, Backslash] else [s[0]]) + w;
    assert |s| > 1 ==> w != [] && w[0] == s[1];
    VariablesAfterPiece(s, d, w);
  }

  /** The second step over the first step's output for the first character of `s`, followed by
      `w`, which starts with the next character. */
  lemma VariablesAfterPiece(s: string, d: bool, w: string)
    requires s != [] && (d ==> s[0] == Backslash)
    requires |s| > 1 ==> w != [] && w[0] == s[1]
    requires |s| == 1 ==> w == []
    ensures EscapeVariables((if d then [Backslash, Backslash] else [s[0]]) + w)
         == (if d then [Backslash, Backslash]
             else if s[0] == Dollar && |s| > 1 && IsIdentifierStart(s[1]) then [Backslash, Dollar]
             else [s[0]]) + EscapeVariables(w)
  {
    if d {
      VariablesCons(Backslash, [Backslash] + w);
      VariablesCons(Backslash, w);
      assert [Backslash, Backslash] + w == [Backslash] + ([Backslash] + w);
    } else if s[0] == Dollar {
      VariablesDollar(w);
    } else {
      VariablesCons(s[0], w);
    }
  }

  /** The third step, given whether the character before `u` was a `{` whose `$` the
      replacement takes. */
  function EscapeBracedVariablesAfter(u: string, afterBrace: bool): string {
    if afterBrace && u != [] && u[0] == Dollar then [Backslash, Dollar] + EscapeBracedVariables(u[1..])
    else EscapeBracedVariables(u)
  }

  lemma BracedCons(c: char, w: string)
    requires c != '{'
    ensures EscapeBracedVariables([c] + w) == [c] + EscapeBracedVariables(w)
  {
    assert ([c] + w)[1..] == w;
  }

  lemma BracedOpen(w: string)
    ensures EscapeBracedVariables(['{'] + w) == ['{'] + EscapeBracedVariablesAfter(w, true)
  {
    var u := ['{'] + w;
    assert u[1..] == w;
    if w != [] && w[0] == Dollar {
      assert u[2..] == w[1..];
    }
  }

  /** A piece of one or two characters free of `{` and not starting with `$` passes the third
      step unchanged. */
  lemma BracedPiece(x: string, w: string, afterBrace: bool)
    requires 1 <= |x| <= 2 && x[0] != '{' && x[0] != Dollar && x[|x| - 1] != '{'
    ensures EscapeBracedVariablesAfter(x + w, afterBrace) == x + EscapeBracedVariables(w)
  {
    if |x| == 1 {
      assert x + w == [x[0]] + w;
      BracedCons(x[0], w);
    } else {
      assert x + w == [x[0]] + ([x[1]] + w);
      BracedCons(x[0], [x[1]] + w);
      BracedCons(x[1], w);
    }
  }

  /** The first three steps produce the character-by-character form without quote escaping. */
  lemma {:induction false} ChainForm(s: string, afterBrace: bool, atEnd: bool, quoteInTail: bool)
    ensures EscapeBracedVariablesAfter(EscapeVariables(EscapeEscapeSequences(s, atEnd, quoteInTail)), afterBrace)
         == EscapedForm(s, afterBrace, EscapeConfig(quoteInTail, atEnd, false))
    decreases |s|
  {
    var cfg := EscapeConfig(quoteInTail, atEnd, false);
    if s != [] {
      EscapeVariablesStep(s, atEnd, quoteInTail);
      var w := EscapeVariables(EscapeEscapeSequences(s[1..], atEnd, quoteInTail));
      ChainForm(s[1..], s[0] == '{', atEnd, quoteInTail);
      var piece := EscapedPiece(s, afterBrace, cfg);
      if s[0] == '{' {
        BracedOpen(w);
      } else if s[0] == Dollar && !(|s| > 1 && IsIdentifierStart(s[1])) {
        BracedCons(Dollar, w);
      } else {
        var x := if s[0] == Dollar then [Backslash, Dollar] else if |piece| == 2 then [Backslash, Backslash] else [s[0]];
        assert x == piece;
        BracedPiece(x, w, afterBrace);
      }
    }
  }

  /** Escaping quotes last turns the heredoc-style form into the double-quoted form. */
  lemma {:induction false} QuoteStepForm(s: string, afterBrace: bool, quoteInTail: bool)
    ensures ReplaceChar(EscapedForm(s, afterBrace, EscapeConfig(quoteInTail, true, false)), DoubleQuote, [Backslash, DoubleQuote])
         == EscapedForm(s, afterBrace, EscapeConfig(quoteInTail, true, true))
    decreases |s|
  {
    if s != [] {
      var cfg := EscapeConfig(quoteInTail, true, false);
      var piece := EscapedPiece(s, afterBrace, cfg);
      ReplaceCharConcat(piece, EscapedForm(s[1..], s[0] == '{', cfg), DoubleQuote, [Backslash, DoubleQuote]);
      QuoteStepForm(s[1..], s[0] == '{', quoteInTail);
      QuoteStepPiece(s, afterBrace, quoteInTail);
    }
  }

  lemma QuoteStepPiece(s: string, afterBrace: bool, quoteInTail: bool)
    requires s != []
    ensures ReplaceChar(EscapedPiece(s, afterBrace, EscapeConfig(quoteInTail, true, false)), DoubleQuote, [Backslash, DoubleQuote])
         == EscapedPiece(s, afterBrace, EscapeConfig(quoteInTail, true, true))
  {
    var piece := EscapedPiece(s, afterBrace, EscapeConfig(quoteInTail, true, false));
    if s[0] != DoubleQuote {
      assert DoubleQuote !in piece;
    }
  }

  /** The double-quoted escaper's regular-expression chain produces the character-by-character
      form. */
  lemma EscapeDoubleQuotedForm(s: string)
    ensures EscapeDoubleQuoted(s) == EscapedForm(s, false, DoubleQuotedConfig)
  {
    ChainForm(s, false, true, false);
    QuoteStepForm(s, false, false);
  }

  /** The heredoc escaper's regular-expression chain produces the character-by-character form. */
  lemma EscapeHeredocForm(s: string)
    ensures EscapeHeredoc(s) == EscapedForm(s, false, HeredocConfig)
  {
    ChainForm(s, false, false, false);
  }

  /** The double-quoted escaper as evidently intended: like the source's, but a backslash
      followed by `"` is doubled as well, as the source's older double-quoted escapers do. */
  function EscapeDoubleQuotedCorrected(s: string): string {
    ReplaceChar(EscapeBracedVariables(EscapeVariables(EscapeEscapeSequences(s, true, true))),
      DoubleQuote, [Backslash, DoubleQuote])
  }

  const CorrectedDoubleQuotedConfig := EscapeConfig(true, true, true)

  lemma EscapeDoubleQuotedCorrectedForm(s: string)
    ensures EscapeDoubleQuotedCorrected(s) == EscapedForm(s, false, CorrectedDoubleQuotedConfig)
  {
    ChainForm(s, false, true, true);
    QuoteStepForm(s, false, true);
  }
}
