/** The intention that turns a double-quoted literal into single-quoted literals joined by the
    concatenation operator: its own decoder of double-quoted text, a state machine that reads
    numeric escapes as decimal, the text it gives an embedded expression, and the conversion. */
module Concatenation {
  import opened Wrappers
  import opened PhpChars
  import opened StringOps
  import opened Unescape
  import opened Escape
  import opened RoundTrip
  import opened QuoteSafety
  import opened Literals
  import opened Segmenter
  import DecodeFacts

  // ---- the decoder, as a reference function ----

  /** Number of decimal digits from index `i` of `s` a decimal escape takes: at most three. */
  function DecimalRunAt(s: string, i: nat): (k: nat)
    requires i <= |s|
    ensures k <= 3 && i + k <= |s|
    ensures forall j | i <= j < i + k :: IsDecimalDigit(s[j])
    ensures k < 3 && i + k < |s| ==> !IsDecimalDigit(s[i + k])
  {
    if i < |s| && IsDecimalDigit(s[i]) then
      if i + 1 < |s| && IsDecimalDigit(s[i + 1]) then
        if i + 2 < |s| && IsDecimalDigit(s[i + 2]) then 3 else 2
      else 1
    else 0
  }

  /** The characters this decoder maps after a backslash. `$` is not one of them. */
  predicate IsMappedEscape(c: char) {
    c == 'n' || c == 'r' || c == 't' || c == 'v' || c == 'e' || c == 'f' || c == Backslash || c == DoubleQuote
  }

  /** A backslash followed by `c` (neither a digit nor `x`): a mapped escape stands for its
      character, any other keeps both characters. */
  function NonComplexEscape(c: char): (r: string)
    ensures IsMappedEscape(c) ==> |r| == 1
    ensures !IsMappedEscape(c) ==> r == [Backslash, c]
  {
    match c
    case 'n' => [Newline]
    case 'r' => [CarriageReturn]
    case 't' => [Tab]
    case 'v' => [VerticalTab]
    case 'e' => [EscapeChar]
    case 'f' => [FormFeed]
    case '\\' => [c]
    case '"' => [c]
    case _ => [Backslash, c]
  }

  /** The text the intention's decoder makes of `s`, read from left to right: one to three
      decimal digits after a backslash are a character code, one or two hexadecimal digits after
      `\x` are one, and an escape still being read when the text ends is dropped (a lone
      backslash, one or two decimal digits, `\x`, or `\x` and one hexadecimal digit). */
  function DecodeNonComplex(s: string): (r: string)
    ensures |r| <= |s|
    decreases |s|
  {
    if s == [] then []
    else if s[0] != Backslash then [s[0]] + DecodeNonComplex(s[1..])
    else if |s| == 1 then []
    else if IsDecimalDigit(s[1]) then
      var k := DecimalRunAt(s, 1);
      if k < 3 && 1 + k == |s| then []
      else [DecimalEscapeChar(s[1..1 + k])] + DecodeNonComplex(s[1 + k..])
    else if s[1] == 'x' then
      if |s| == 2 then []
      else if IsHexDigit(s[2]) then
        var k := HexRunAt(s, 2);
        if k < 2 && 2 + k == |s| then []
        else [HexEscapeChar(s[2..2 + k])] + DecodeNonComplex(s[2 + k..])
      else [Backslash, 'x'] + DecodeNonComplex(s[2..])
    else NonComplexEscape(s[1]) + DecodeNonComplex(s[2..])
  }

  // ---- the decoder, as the state machine of the source ----

  datatype EscapingState =
    | ReadingNewCharacter
    | ReadingPotentialEscapeSequence
    | ReadingDecimalCharEscape
    | ReadingPotentialHexCharEscape
    | ReadingHexCharEscape

  /** The text read but not yet decoded in a state, with `buffer` the digits gathered. */
  function Pending(state: EscapingState, buffer: string): string {
    match state
    case ReadingNewCharacter => []
    case ReadingPotentialEscapeSequence => [Backslash]
    case ReadingDecimalCharEscape => [Backslash] + buffer
    case ReadingPotentialHexCharEscape => [Backslash, 'x']
    case ReadingHexCharEscape => [Backslash, 'x'] + buffer
  }

  /** Between two characters the decimal buffer holds one or two digits, the hexadecimal
      buffer one digit, and the buffer is empty in the other states. */
  predicate PendingOk(state: EscapingState, buffer: string) {
    match state
    case ReadingDecimalCharEscape =>
      1 <= |buffer| <= 2 && forall j | 0 <= j < |buffer| :: IsDecimalDigit(buffer[j])
    case ReadingHexCharEscape => |buffer| == 1 && IsHexDigit(buffer[0])
    case _ => buffer == []
  }

  lemma NonComplexLiteral(c: char, rest: string)
    requires c != Backslash
    ensures DecodeNonComplex([c] + rest) == [c] + DecodeNonComplex(rest)
  {
    assert ([c] + rest)[1..] == rest;
  }

  lemma NonComplexPair(c: char, rest: string)
    requires !IsDecimalDigit(c) && c != 'x'
    ensures DecodeNonComplex([Backslash, c] + rest) == NonComplexEscape(c) + DecodeNonComplex(rest)
  {
    var s := [Backslash, c] + rest;
    assert s[1] == c && s[2..] == rest;
  }

  lemma NonComplexDecimal(ds: string, rest: string)
    requires 1 <= |ds| <= 3 && forall j | 0 <= j < |ds| :: IsDecimalDigit(ds[j])
    requires |ds| == 3 || (rest != [] && !IsDecimalDigit(rest[0]))
    ensures DecodeNonComplex([Backslash] + ds + rest) == [DecimalEscapeChar(ds)] + DecodeNonComplex(rest)
  {
    var s := [Backslash] + ds + rest;
    var n := |ds|;
    assert s[1..1 + n] == ds;
    assert s[1 + n..] == rest;
    assert forall j | 1 <= j < 1 + n :: s[j] == ds[j - 1];
    if n < 3 {
      assert s[1 + n] == rest[0];
    }
    assert DecimalRunAt(s, 1) == n;
  }

  lemma NonComplexHex(ds: string, rest: string)
    requires 1 <= |ds| <= 2 && forall j | 0 <= j < |ds| :: IsHexDigit(ds[j])
    requires |ds| == 2 || (rest != [] && !IsHexDigit(rest[0]))
    ensures DecodeNonComplex([Backslash, 'x'] + ds + rest) == [HexEscapeChar(ds)] + DecodeNonComplex(rest)
  {
    var s := [Backslash, 'x'] + ds + rest;
    var n := |ds|;
    assert s[2..2 + n] == ds;
    assert s[2 + n..] == rest;
    assert forall j | 2 <= j < 2 + n :: s[j] == ds[j - 2];
    if n < 2 {
      assert s[2 + n] == rest[0];
    }
    assert HexRunAt(s, 2) == n;
  }

  lemma NonComplexBareHexMark(c: char, rest: string)
    requires !IsHexDigit(c)
    ensures DecodeNonComplex([Backslash, 'x', c] + rest) == [Backslash, 'x'] + DecodeNonComplex([c] + rest)
  {
    var s := [Backslash, 'x', c] + rest;
    assert s[2..] == [c] + rest;
  }

  /** Whatever is still pending when the text ends decodes to nothing. */
  lemma PendingIsDropped(state: EscapingState, buffer: string)
    requires PendingOk(state, buffer)
    ensures DecodeNonComplex(Pending(state, buffer)) == []
  {
    var s := Pending(state, buffer);
    match state
    case ReadingNewCharacter =>
    case ReadingPotentialEscapeSequence =>
    case ReadingDecimalCharEscape =>
      assert forall j | 1 <= j < |s| :: s[j] == buffer[j - 1];
      assert DecimalRunAt(s, 1) == |buffer|;
    case ReadingPotentialHexCharEscape =>
    case ReadingHexCharEscape =>
      assert s[2] == buffer[0];
      assert HexRunAt(s, 2) == 1;
  }

  /** The new-character block: a backslash starts an escape, any other character is output. */
  method ReadNewCharacter(c: char, ghost rest: string) returns (piece: string, next: EscapingState)
    ensures PendingOk(next, [])
    ensures DecodeNonComplex([c] + rest) == piece + DecodeNonComplex(Pending(next, []) + rest)
  {
    if c == Backslash {
      piece, next := [], ReadingPotentialEscapeSequence;
      assert [c] + rest == Pending(next, []) + rest;
    } else {
      NonComplexLiteral(c, rest);
      piece, next := [c], ReadingNewCharacter;
      assert Pending(next, []) + rest == rest;
    }
  }

  lemma Regroup(a: string, b: string, c: string)
    ensures a + (b + c) == (a + b) + c
  {
  }

  /** The block after a backslash: a digit starts a decimal escape, `x` perhaps a hexadecimal
      one, and any other character ends the escape. */
  method ReadPotentialEscape(c: char, ghost rest: string)
    returns (piece: string, next: EscapingState, nextBuffer: string)
    ensures PendingOk(next, nextBuffer)
    ensures DecodeNonComplex([Backslash] + ([c] + rest)) == piece + DecodeNonComplex(Pending(next, nextBuffer) + rest)
  {
    if IsDecimalDigit(c) {
      piece, next, nextBuffer := [], ReadingDecimalCharEscape, [c];
      assert [Backslash] + ([c] + rest) == [Backslash] + nextBuffer + rest;
    } else if c == 'x' {
      piece, next, nextBuffer := [], ReadingPotentialHexCharEscape, [];
      assert [Backslash] + ([c] + rest) == [Backslash, 'x'] + rest;
    } else {
      NonComplexPair(c, rest);
      assert [Backslash] + ([c] + rest) == [Backslash, c] + rest;
      piece, next, nextBuffer := NonComplexEscape(c), ReadingNewCharacter, [];
      assert Pending(next, nextBuffer) + rest == rest;
    }
  }

  /** The decimal block: a digit is gathered, and the code is output at the third digit or at a
      character that is not a digit, which the new-character block then reads. */
  method ReadDecimalEscape(buffer: string, c: char, ghost rest: string)
    returns (piece: string, next: EscapingState, nextBuffer: string)
    requires PendingOk(ReadingDecimalCharEscape, buffer)
    ensures PendingOk(next, nextBuffer)
    ensures DecodeNonComplex([Backslash] + buffer + ([c] + rest)) == piece + DecodeNonComplex(Pending(next, nextBuffer) + rest)
  {
    if IsDecimalDigit(c) {
      nextBuffer := buffer + [c];
      assert [Backslash] + buffer + ([c] + rest) == [Backslash] + nextBuffer + rest;
      if |nextBuffer| == 3 {
        NonComplexDecimal(nextBuffer, rest);
        piece, next := [DecimalEscapeChar(nextBuffer)], ReadingNewCharacter;
        nextBuffer := [];
        assert Pending(next, nextBuffer) + rest == rest;
      } else {
        piece, next := [], ReadingDecimalCharEscape;
      }
    } else {
      NonComplexDecimal(buffer, [c] + rest);
      var more;
      more, next := ReadNewCharacter(c, rest);
      piece := [DecimalEscapeChar(buffer)] + more;
      nextBuffer := [];
      Regroup([DecimalEscapeChar(buffer)], more, DecodeNonComplex(Pending(next, nextBuffer) + rest));
    }
  }

  /** The block after `\x`: a hexadecimal digit starts a hexadecimal escape; otherwise `\x` is
      output and the new-character block reads the character. */
  method ReadPotentialHexEscape(c: char, ghost rest: string)
    returns (piece: string, next: EscapingState, nextBuffer: string)
    ensures PendingOk(next, nextBuffer)
    ensures DecodeNonComplex([Backslash, 'x'] + ([c] + rest)) == piece + DecodeNonComplex(Pending(next, nextBuffer) + rest)
  {
    if IsHexDigit(c) {
      piece, next, nextBuffer := [], ReadingHexCharEscape, [c];
      assert [Backslash, 'x'] + ([c] + rest) == [Backslash, 'x'] + nextBuffer + rest;
    } else {
      NonComplexBareHexMark(c, rest);
      assert [Backslash, 'x'] + ([c] + rest) == [Backslash, 'x', c] + rest;
      var more;
      more, next := ReadNewCharacter(c, rest);
      piece := [Backslash, 'x'] + more;
      nextBuffer := [];
      Regroup([Backslash, 'x'], more, DecodeNonComplex(Pending(next, nextBuffer) + rest));
    }
  }

  /** The hexadecimal block: the code is output at the second digit, or at a character that is
      not a hexadecimal digit, which the new-character block then reads. */
  method ReadHexEscape(buffer: string, c: char, ghost rest: string)
    returns (piece: string, next: EscapingState, nextBuffer: string)
    requires PendingOk(ReadingHexCharEscape, buffer)
    ensures PendingOk(next, nextBuffer)
    ensures DecodeNonComplex([Backslash, 'x'] + buffer + ([c] + rest)) == piece + DecodeNonComplex(Pending(next, nextBuffer) + rest)
  {
    if IsHexDigit(c) {
      var digits := buffer + [c];
      assert [Backslash, 'x'] + buffer + ([c] + rest) == [Backslash, 'x'] + digits + rest;
      NonComplexHex(digits, rest);
      piece, next, nextBuffer := [HexEscapeChar(digits)], ReadingNewCharacter, [];
      assert Pending(next, nextBuffer) + rest == rest;
    } else {
      NonComplexHex(buffer, [c] + rest);
      var more;
      more, next := ReadNewCharacter(c, rest);
      piece := [HexEscapeChar(buffer)] + more;
      nextBuffer := [];
      Regroup([HexEscapeChar(buffer)], more, DecodeNonComplex(Pending(next, nextBuffer) + rest));
    }
  }

  /** One character of the loop: what it adds to the output, and the state and the buffer
      after it; the text read so far keeps decoding the same way. */
  method ReadCharacter(state: EscapingState, buffer: string, c: char, ghost rest: string)
    returns (piece: string, next: EscapingState, nextBuffer: string)
    requires PendingOk(state, buffer)
    ensures PendingOk(next, nextBuffer)
    ensures DecodeNonComplex(Pending(state, buffer) + ([c] + rest))
         == piece + DecodeNonComplex(Pending(next, nextBuffer) + rest)
  {
    match state {
      case ReadingNewCharacter =>
        assert Pending(state, buffer) + ([c] + rest) == [c] + rest;
        piece, next := ReadNewCharacter(c, rest);
        nextBuffer := [];
      case ReadingPotentialEscapeSequence =>
        piece, next, nextBuffer := ReadPotentialEscape(c, rest);
      case ReadingDecimalCharEscape =>
        piece, next, nextBuffer := ReadDecimalEscape(buffer, c, rest);
      case ReadingPotentialHexCharEscape =>
        piece, next, nextBuffer := ReadPotentialHexEscape(c, rest);
      case ReadingHexCharEscape =>
        piece, next, nextBuffer := ReadHexEscape(buffer, c, rest);
    }
  }

  /** `unescapePhpDoubleQuotedNonComplexStringContent`: the state machine over the characters of
      the text, with the output, the state and the buffer of escape digits; what is pending when
      the text ends is dropped. */
  method UnescapeNonComplexContent(text: string) returns (unescaped: string)
    ensures unescaped == DecodeNonComplex(text)
  {
    var out := "";
    var state := ReadingNewCharacter;
    var buffer := "";
    assert Pending(state, buffer) + text[0..] == text;
    for i := 0 to |text|
      invariant PendingOk(state, buffer)
      invariant out + DecodeNonComplex(Pending(state, buffer) + text[i..]) == DecodeNonComplex(text)
    {
      out, state, buffer := ConsumeCharacter(text, i, out, state, buffer);
    }
    PendingIsDropped(state, buffer);
    assert Pending(state, buffer) + text[|text|..] == Pending(state, buffer);
    unescaped := out;
  }

  /** One iteration of the loop above: the character at `i` is consumed and the decoding still
      to come shrinks by what was written. */
  method ConsumeCharacter(text: string, i: nat, out: string, state: EscapingState, buffer: string)
    returns (out': string, state': EscapingState, buffer': string)
    requires i < |text| && PendingOk(state, buffer)
    ensures PendingOk(state', buffer')
    ensures out' + DecodeNonComplex(Pending(state', buffer') + text[i + 1..])
         == out + DecodeNonComplex(Pending(state, buffer) + text[i..])
  {
    ghost var rest := text[i + 1..];
    assert text[i..] == [text[i]] + rest;
    var piece;
    piece, state', buffer' := ReadCharacter(state, buffer, text[i], rest);
    Regroup(out, piece, DecodeNonComplex(Pending(state', buffer') + rest));
    out' := out + piece;
  }

  // ---- the decoder against the decoder of double-quoted strings ----

  /** Every backslash of `s` starts a two-character escape other than a numeric one (a digit
      or `x` after it) and other than `\$`. */
  predicate WithoutNumericOrDollarEscape(s: string)
    decreases |s|
  {
    if s == [] then true
    else if s[0] != Backslash then WithoutNumericOrDollarEscape(s[1..])
    else
      |s| >= 2 && !IsDecimalDigit(s[1]) && s[1] != 'x' && s[1] != Dollar
      && WithoutNumericOrDollarEscape(s[2..])
  }

  /** On such texts the intention's decoder and the decoder of double-quoted strings agree. */
  lemma {:induction false} DecodersAgree(s: string)
    requires WithoutNumericOrDollarEscape(s)
    ensures DecodeNonComplex(s) == UnescapeDoubleQuoted(s)
    decreases |s|
  {
    if s != [] {
      assert s == [s[0]] + s[1..];
      if s[0] != Backslash {
        DecodersAgree(s[1..]);
        NonComplexLiteral(s[0], s[1..]);
        DecodeFacts.DecodeLiteral(s[0], s[1..], true);
      } else {
        assert s == [Backslash, s[1]] + s[2..];
        DecodersAgree(s[2..]);
        NonComplexPair(s[1], s[2..]);
        DecodeFacts.DecodeSingleCharEscape(s[1], s[2..], true);
        assert SingleCharEscape(s[1], true) == NonComplexEscape(s[1]);
      }
    }
  }

  /** Where they differ: `\\101` is the character 101 (`e`) here and the octal code 65 (`A`)
      for PHP. */
  lemma DecimalEscapeMisread()
    ensures DecodeNonComplex("\\101") == [101 as char]
    ensures UnescapeDoubleQuoted("\\101") == "A"
  {
    NonComplexDecimal("101", []);
    assert "\\101" == [Backslash] + "101" + [];
    assert DecimalValue("101") == 101 by {
      assert "101"[..2] == "10" && "10"[..1] == "1" && "1"[..0] == [];
    }
    DecodeFacts.DecodeOctalEscape("101", [], true);
    assert OctalValue("101") == 65 by {
      assert "101"[..2] == "10" && "10"[..1] == "1" && "1"[..0] == [];
    }
  }

  /** `\\12` at the end of the text is dropped here and is a newline for PHP. */
  lemma TrailingEscapeDropped()
    ensures DecodeNonComplex("a\\12") == "a"
    ensures UnescapeDoubleQuoted("a\\12") == "a\n"
  {
    var t := "\\12";
    assert "a\\12" == ['a'] + t;
    NonComplexLiteral('a', t);
    assert DecimalRunAt(t, 1) == 2;
    DecodeFacts.DecodeLiteral('a', t, true);
    assert t == [Backslash] + "12" + [];
    DecodeFacts.DecodeOctalEscape("12", [], true);
    assert OctalValue("12") == 10 by {
      assert "12"[..1] == "1" && "1"[..0] == [];
    }
  }

  /** `\\$` keeps its backslash here and is a dollar sign for PHP. */
  lemma DollarEscapeKept()
    ensures DecodeNonComplex("\\$") == "\\$"
    ensures UnescapeDoubleQuoted("\\$") == "$"
  {
    assert "\\$" == [Backslash, Dollar] + [];
    NonComplexPair(Dollar, []);
    DecodeFacts.DecodeEscapedChar(Dollar, [], true);
  }

  // ---- the conversion ----

  /** `getInComplexStringVariableOrExpressionRealText`: a braced expression loses its braces, an
      array access without braces always has its key quoted, anything else is kept. */
  function RealText(e: EmbeddedExpr): (r: string)
    ensures e.Braced? ==> r == e.inner && |r| == |ExprText(e)| - 2
    ensures e.ArrayAccess? ==> r == ExprText(ArrayAccess(e.name, [SingleQuote] + e.index + [SingleQuote], e.indexKind))
    ensures e.Plain? ==> r == ExprText(e)
  {
    match e
    case Braced(inner) => inner
    case ArrayAccess(name, index, _) => name + "['" + index + "']"
    case Plain(text) => text
  }

  /** The real text is the text the heredoc clean-up gives, except for the array accesses whose
      key the clean-up leaves unquoted. */
  lemma RealTextAndCleanup(e: EmbeddedExpr)
    ensures RealText(e) == CleanupEmbeddedExpression(e) <==> !(e.ArrayAccess? && !QuotesIndex(e.index, e.indexKind))
  {
    if e.ArrayAccess? && !QuotesIndex(e.index, e.indexKind) {
      assert |RealText(e)| == |CleanupEmbeddedExpression(e)| + 2;
    }
  }

  /** A text fragment becomes the single-quoted literal of what the intention's decoder reads. */
  function FragmentOperand(text: string): (r: Option<string>)
    ensures r.Some? && |r.value| >= 2 && StaysInsideSingleQuotes(QuotedContent(r.value))
    ensures r.Some? && |r.value| >= 2 && UnescapeSingleQuoted(QuotedContent(r.value)) == DecodeNonComplex(text)
  {
    Some(SingleQuotedLiteralFromText(DecodeNonComplex(text)))
  }

  /** An embedded expression becomes its real text. */
  function ExprOperand(e: EmbeddedExpr): Option<string> {
    Some(RealText(e))
  }

  /** A text fragment decoded by the decoder of double-quoted strings. */
  function CorrectedFragmentOperand(text: string): (r: Option<string>)
    ensures r.Some? && |r.value| >= 2 && StaysInsideSingleQuotes(QuotedContent(r.value))
    ensures r.Some? && |r.value| >= 2 && UnescapeSingleQuoted(QuotedContent(r.value)) == UnescapeDoubleQuoted(text)
  {
    Some(SingleQuotedLiteralFromText(UnescapeDoubleQuoted(text)))
  }

  /** An embedded expression written the way the heredoc clean-up writes it, which quotes the key
      of an unbraced array access only where PHP reads that key as a string. */
  function ExprOperandCorrected(e: EmbeddedExpr): (r: Option<string>)
    ensures r.Some? && (e.ArrayAccess? && !QuotesIndex(e.index, e.indexKind) ==> r.value == ExprText(e))
    ensures r.Some? && (!(e.ArrayAccess? && !QuotesIndex(e.index, e.indexKind)) ==> r.value == RealText(e))
  {
    RealTextAndCleanup(e);
    Some(CleanupEmbeddedExpression(e))
  }

  /** A literal of one piece, that piece being the whole literal with its quotes. */
  predicate IsSimpleLiteral(children: seq<QuotedPiece>) {
    |children| == 1 && children[0].Fragment? && |children[0].text| >= 2
  }

  /** The conversion of the intention: nothing for a literal without pieces; for an
      interpolated literal its operands, in order, joined by `.`; for a plain literal the
      single-quoted literal of its decoded content. */
  function ConcatenationOf(children: seq<QuotedPiece>): (r: Option<string>)
    requires |children| == 1 ==> IsSimpleLiteral(children)
    ensures r.None? <==> children == []
    ensures |children| > 1 ==> r == Some(Join(MapQuotedPieces(children, FragmentOperand, ExprOperand), "."))
    ensures IsSimpleLiteral(children) ==>
      (r.Some? && |r.value| >= 2 && StaysInsideSingleQuotes(QuotedContent(r.value))
       && UnescapeSingleQuoted(QuotedContent(r.value)) == DecodeNonComplex(QuotedContent(children[0].text)))
  {
    if |children| == 0 then None
    else if |children| > 1 then Some(Join(MapQuotedPieces(children, FragmentOperand, ExprOperand), "."))
    else Some(SingleQuotedLiteralFromText(DecodeNonComplex(QuotedContent(children[0].text))))
  }

  /** What an operand of the concatenation is made of. */
  function Operand(piece: QuotedPiece): string {
    match piece
    case Fragment(t) => SingleQuotedLiteralFromText(DecodeNonComplex(t))
    case Embedded(e) => RealText(e)
    case _ => []
  }

  predicate IsQuote(piece: QuotedPiece) {
    piece.OpenQuote? || piece.CloseQuote?
  }

  /** Between the quotes, every piece gives exactly one operand, in order. */
  lemma OperandsInOrder(body: seq<QuotedPiece>)
    requires forall k | 0 <= k < |body| :: !IsQuote(body[k])
    ensures var ops := MapQuotedPieces([OpenQuote] + body + [CloseQuote], FragmentOperand, ExprOperand);
      |ops| == |body| && forall k | 0 <= k < |body| :: ops[k] == Operand(body[k])
  {
    QuotesAreSkipped(body, FragmentOperand, ExprOperand);
    assert forall k | 0 <= k < |body| :: QuotedEmitted(body[k], FragmentOperand, ExprOperand) == [Operand(body[k])];
    QuotedPiecesInOrder(body, FragmentOperand, ExprOperand);
  }

  /** The loop of `invoke` over the pieces of an interpolated literal, decoding each text
      fragment with the state machine; the quotes are skipped. */
  method ConcatenationOperands(children: seq<QuotedPiece>) returns (operands: seq<string>)
    ensures operands == MapQuotedPieces(children, FragmentOperand, ExprOperand)
  {
    ghost var target := MapQuotedPieces(children, FragmentOperand, ExprOperand);
    operands := [];
    assert children[0..] == children;
    for i := 0 to |children|
      invariant operands + MapQuotedPieces(children[i..], FragmentOperand, ExprOperand) == target
    {
      QuotedAdvance(children, i, FragmentOperand, ExprOperand);
      ghost var before := operands;
      ghost var emitted := QuotedEmitted(children[i], FragmentOperand, ExprOperand);
      match children[i] {
        case OpenQuote =>
        case CloseQuote =>
        case Fragment(t) =>
          var content := UnescapeNonComplexContent(t);
          operands := operands + [SingleQuotedLiteralFromText(content)];
        case Embedded(e) =>
          operands := operands + [RealText(e)];
      }
      assert operands == before + emitted;
      Associate(before, emitted, MapQuotedPieces(children[i + 1..], FragmentOperand, ExprOperand));
    }
    assert children[|children|..] == [];
  }

  /** `invoke` of the intention: nothing without pieces, the operands joined by `.` for an
      interpolated literal, the single-quoted literal otherwise. */
  method ReplaceQuotesWithConcatenation(children: seq<QuotedPiece>) returns (r: Option<string>)
    requires |children| == 1 ==> IsSimpleLiteral(children)
    ensures r == ConcatenationOf(children)
  {
    if |children| == 0 {
      return None;
    }
    if |children| > 1 {
      var operands := ConcatenationOperands(children);
      return Some(Join(operands, "."));
    }
    var content := UnescapeNonComplexContent(QuotedContent(children[0].text));
    return Some(SingleQuotedLiteralFromText(content));
  }

  /** The conversion with the decoder of double-quoted strings in place of the intention's
      decoder, and the heredoc clean-up in place of the real text of an expression: a plain
      literal becomes a single-quoted literal denoting the same text. */
  function ConcatenationOfCorrected(children: seq<QuotedPiece>): (r: Option<string>)
    requires |children| == 1 ==> IsSimpleLiteral(children)
    ensures r.None? <==> children == []
    ensures IsSimpleLiteral(children) ==>
      (r.Some? && |r.value| >= 2 && StaysInsideSingleQuotes(QuotedContent(r.value))
       && UnescapeSingleQuoted(QuotedContent(r.value)) == UnescapeDoubleQuoted(QuotedContent(children[0].text)))
  {
    if |children| == 0 then None
    else if |children| > 1 then
      Some(Join(MapQuotedPieces(children, CorrectedFragmentOperand, ExprOperandCorrected), "."))
    else Some(SingleQuotedLiteralFromText(UnescapeDoubleQuoted(QuotedContent(children[0].text))))
  }

  /** The two conversions agree on a plain literal whose escapes the two decoders read alike. */
  lemma ConversionsAgree(children: seq<QuotedPiece>)
    requires IsSimpleLiteral(children) && WithoutNumericOrDollarEscape(QuotedContent(children[0].text))
    ensures ConcatenationOf(children) == ConcatenationOfCorrected(children)
  {
    DecodersAgree(QuotedContent(children[0].text));
  }

  /** An array access whose key is a variable has that key quoted by the real text, which makes
      `"$a[$i]"` the concatenation `$a['$i']`, a lookup of the literal key `$i`; the clean-up
      keeps the variable key. */
  lemma VariableKeyQuoted()
    ensures ConcatenationOf([OpenQuote, Embedded(ArrayAccess("$a", "$i", OtherToken)), CloseQuote]) == Some("$a['$i']")
  {
    var e := ArrayAccess("$a", "$i", OtherToken);
    assert RealText(e) == "$a['$i']";
    OneExpression(e, FragmentOperand, ExprOperand);
  }

  /** The corrected conversion keeps the variable key of `"$a[$i]"`. */
  lemma VariableKeyKept()
    ensures ConcatenationOfCorrected([OpenQuote, Embedded(ArrayAccess("$a", "$i", OtherToken)), CloseQuote]) == Some("$a[$i]")
  {
    var e := ArrayAccess("$a", "$i", OtherToken);
    assert !IsOctalIntegerText("$i");
    assert CleanupEmbeddedExpression(e) == "$a[$i]";
    OneExpression(e, CorrectedFragmentOperand, ExprOperandCorrected);
  }

  /** The operands of a literal that is one embedded expression. */
  lemma OneExpression(e: EmbeddedExpr, tm: string -> Option<string>, em: EmbeddedExpr -> Option<string>)
    ensures MapQuotedPieces([OpenQuote, Embedded(e), CloseQuote], tm, em) == Keep(em(e))
  {
    var body := [Embedded(e)];
    assert [OpenQuote, Embedded(e), CloseQuote] == [OpenQuote] + body + [CloseQuote];
    QuotesAreSkipped(body, tm, em);
    assert body[1..] == [];
  }
}
