# PHP string-literal re-encoding, modelled in Dafny

This project models the core of php-1up, a set of IntelliJ intentions that convert PHP string
literals between the four syntaxes of the "Strings" chapter of the PHP manual: single-quoted,
double-quoted, heredoc and nowdoc. The intentions can also turn an interpolated literal into a
`.`-concatenation of literals and expressions. What is modelled is the text work behind the
intentions:

- decoding the escape sequences of double-quoted and heredoc content with a cursor over the
  characters (`CharEnumeration`);
- the escapers and decoders of every literal kind;
- the literal builders and the check that a nowdoc delimiter does not occur as a line of its
  content;
- the identifier of a heredoc or nowdoc;
- the loops that split an interpolated literal into text runs and embedded expressions, and the
  clean-up of an embedded expression;
- the conversions of the intentions, built from these parts.

The project has one module per concern:

- `Wrappers`: `Option` and `Result`.
- `PhpChars`: character classes, numeric values and the constants.
- `StringOps`: literal replacement, join, trim and the lines of a text.
- `CharEnum`: the cursor class.
- `Unescape` and `DecodeFacts`: the double-quoted and heredoc decoder. It is a method over the
  cursor, proved equal to a recursive decoder, with one lemma per kind of escape sequence.
- `Escape`, `RoundTrip` and `QuoteSafety`: the escapers, what decoding undoes, and whether
  escaped text stays inside its quotes.
- `Literals`: the builders and the identifier.
- `Segmenter`: the piece loops and the expression clean-up.
- `Concatenation`: the concatenation intention with its own state-machine decoder.
- `SingleToDouble`: the two older single-to-double-quote intentions.
- `Conversions`: the remaining escaping and plain conversions.

The loops of the source are methods with loop invariants. Each is proved equal to a function, and
the lemmas are about that function. The intentions' PSI trees become lists of lexer pieces: the
`Piece` and `QuotedPiece` datatypes. Embedded expressions become the `EmbeddedExpr` datatype.

Where the code and its documentation differ, the model follows the code. The single-quoted
escaper has no documentation of its own. Its decoder's documentation points to PHP's rules for
single-quoted strings, but the escaper's code leaves a backslash before another backslash alone,
so the two do not round-trip. The model follows the escaper's code (see Findings).

## Model

| member | source | states |
|---|---|---|
| CharEnum.CharEnumeration.constructor | src/com/axeldev/CharEnumeration.java:22-28 | wraps the array with the pointer at 0 |
| CharEnum.CharEnumeration.HasMoreElements | src/com/axeldev/CharEnumeration.java:35-37 | true exactly when the pointer is before the end of the array |
| CharEnum.CharEnumeration.NextElement | src/com/axeldev/CharEnumeration.java:45-48 | returns the element at the old pointer and advances the pointer by one; on an exhausted cursor the model gives None where the source throws, and the pointer stays |
| CharEnum.Drain | src/com/axeldev/CharEnumeration.java:35-48 | successive calls yield the remaining elements in index order and leave the cursor exhausted |
| PhpChars.DecimalEscapeChar | src/com/axeldev/PhpReplaceQuotesWithConcatenationIntention.java:164-172 | one to three decimal digits give the character whose code is their base-10 value, below 1000 |
| PhpChars.OctalEscapeChar | src/com/axeldev/PhpStringUtil.java:583 | one to three octal digits give the character with that octal value |
| PhpChars.HexEscapeChar | src/com/axeldev/PhpStringUtil.java:603 | one or two hexadecimal digits give the character with that value |
| Unescape.OctalRunAt | src/com/axeldev/PhpStringUtil.java:568-582 | the octal escape takes the longest run of at most three octal digits |
| Unescape.HexRunAt | src/com/axeldev/PhpStringUtil.java:594-602 | the hexadecimal escape takes the longest run of at most two hexadecimal digits |
| Unescape.SingleCharEscape | src/com/axeldev/PhpStringUtil.java:615-647 | a single-character escape gives one character, except `\"` in heredoc mode and unknown pairs, which keep both characters |
| Unescape.DecodeStep | src/com/axeldev/PhpStringUtil.java:565-651 | each escape sequence is consumed whole and stands for at most as many characters as it has |
| Unescape.UnescapeDoubleQuotedLike | src/com/axeldev/PhpStringUtil.java:553-661 | decoded content is never longer than the escaped content |
| Unescape.UnescapeDoubleQuoted | src/com/axeldev/PhpStringUtil.java:549-551 | double-quoted content never decodes to something longer, and content without a backslash decodes to itself |
| Unescape.UnescapeHeredoc | src/com/axeldev/PhpStringUtil.java:685-687 | heredoc content never decodes to something longer, and content without a backslash decodes to itself |
| Unescape.UnescapeSingleQuoted | src/com/axeldev/PhpStringUtil.java:671-675 | the two replacements never lengthen the content, and content without a backslash is unchanged |
| Unescape.UnescapeNowdoc | src/com/axeldev/PhpStringUtil.java:697-700 | nowdoc content decodes to itself |
| Unescape.ReadOctalCode | src/com/axeldev/PhpStringUtil.java:568-582 | the cursor reads the octal run, and one character past it when that character is not octal |
| Unescape.ReadHexCode | src/com/axeldev/PhpStringUtil.java:594-602 | the cursor reads the hexadecimal run, and one character past it when that character is not hexadecimal |
| Unescape.DecodeOctalEscape | src/com/axeldev/PhpStringUtil.java:568-585 | the octal branch produces the decoder's step; a character read past the run is handed back for re-processing |
| Unescape.DecodeHexEscape | src/com/axeldev/PhpStringUtil.java:588-614 | the `\x` branch produces the decoder's step and hands back the character it read too far |
| Unescape.DecodeEscapeSequence | src/com/axeldev/PhpStringUtil.java:565-649 | the branch for a backslash with more input produces the decoder's step |
| Unescape.DecodeCurrent | src/com/axeldev/PhpStringUtil.java:565-652 | one pass of the loop body produces the decoder's step for the current character |
| Unescape.UnescapeDoubleQuotedLikeContent | src/com/axeldev/PhpStringUtil.java:553-661 | the cursor loop returns exactly the recursive decoding of the content, in both modes |
| DecodeFacts.DecodeLiteral | src/com/axeldev/PhpStringUtil.java:650-652 | a character other than a backslash is copied |
| DecodeFacts.DecodeEscapedChar | src/com/axeldev/PhpStringUtil.java:633-642 | `\\` and `\$` give the character; `\"` does so in double-quoted mode |
| DecodeFacts.DecodeUnknownPair | src/com/axeldev/PhpStringUtil.java:637-647 | an unknown pair, and `\"` in heredoc mode, is copied as both characters |
| DecodeFacts.DecodeBareHexMark | src/com/axeldev/PhpStringUtil.java:607-613 | `\x` without a hexadecimal digit is copied and the next character is re-processed |
| DecodeFacts.DecodeSingleCharEscape | src/com/axeldev/PhpStringUtil.java:615-647 | a backslash pair decodes to the single-character table entry, then decoding goes on |
| DecodeFacts.SingleCharEscapeTable | src/com/axeldev/PhpStringUtil.java:615-632 | `\n \r \t \v \e \f` give the characters 10, 13, 9, 11, 27 and 12 in both modes |
| DecodeFacts.DecodeOctalEscape | src/com/axeldev/PhpStringUtil.java:568-585 | a backslash and one to three octal digits give one character; a following non-octal character is decoded normally |
| DecodeFacts.DecodeHexEscape | src/com/axeldev/PhpStringUtil.java:588-606 | `\x` and one or two hexadecimal digits give one character; a following character is decoded normally |
| DecodeFacts.DecodeTrailingBackslash | src/com/axeldev/PhpStringUtil.java:650-652 | a lone trailing backslash is copied |
| Unescape.DecodeWithoutBackslash | src/com/axeldev/PhpStringUtil.java:553-661 | text without a backslash decodes to itself |
| Escape.EscapeEscapeSequences | src/com/axeldev/PhpStringUtil.java:705 | the first escaper step only inserts backslashes and keeps the first character |
| Escape.EscapeVariables | src/com/axeldev/PhpStringUtil.java:708-710 | the variable step only inserts backslashes, and text without `$` is unchanged |
| Escape.EscapeBracedVariables | src/com/axeldev/PhpStringUtil.java:725-727 | the `{$` step only inserts backslashes, and text without `$` is unchanged |
| Escape.EscapeDoubleQuoted | src/com/axeldev/PhpStringUtil.java:702-712 | the double-quoted escaper only adds characters, and text without a backslash, `$` or `"` is unchanged |
| Escape.EscapeHeredoc | src/com/axeldev/PhpStringUtil.java:718-728 | the heredoc escaper only adds characters, and text without a backslash or `$` is unchanged |
| Escape.EscapeNowdoc | src/com/axeldev/PhpStringUtil.java:730-733 | nowdoc escaping is the identity |
| Escape.EscapeSingleQuoted | src/com/axeldev/PhpStringUtil.java:714-716 | the single-quoted escaper only adds characters |
| Escape.EscapeBackslashesAndQuotes | src/com/axeldev/PhpReplaceQuotesWithConcatenationIntention.java:269-273 | every backslash and every quote gets one backslash: the length grows by their number |
| Escape.EscapeDoubleQuotedForm | src/com/axeldev/PhpStringUtil.java:702-712 | the double-quoted chain of replacements equals its character-by-character form |
| Escape.EscapeHeredocForm | src/com/axeldev/PhpStringUtil.java:718-728 | the heredoc chain of replacements equals its character-by-character form |
| Escape.EscapeDoubleQuotedCorrectedForm | src/com/axeldev/PhpStringUtil.java:702-712 | the corrected double-quoted escaper has the same character-by-character form with `"` among the escape tails |
| RoundTrip.FormRoundTrip | src/com/axeldev/PhpStringUtil.java:702-728 | decoding in the matching mode undoes the character-by-character escaping |
| RoundTrip.EscapeDoubleQuotedRoundTrip | src/com/axeldev/PhpStringUtil.java:702-712 | the double-quoted decoder undoes the double-quoted escaper for every text |
| RoundTrip.EscapeHeredocRoundTrip | src/com/axeldev/PhpStringUtil.java:718-728 | the heredoc decoder undoes the heredoc escaper for every text |
| RoundTrip.EscapeSingleQuotedRoundTrip | src/com/axeldev/PhpStringUtil.java:714-716 | the single-quoted decoder undoes the single-quoted escaper when no backslash is followed by another |
| RoundTrip.EscapeBackslashesAndQuotesRoundTrip | src/com/axeldev/PhpReplaceQuotesWithConcatenationIntention.java:269-273 | the single-quoted decoder undoes the escaper that escapes every backslash, for every text |
| RoundTrip.SingleQuotedEscapersAgree | src/com/axeldev/PhpStringUtil.java:714-716 | where the single-quoted escaper round-trips, both single-quoted escapers denote the same text |
| RoundTrip.EscapeSingleQuotedLosesBackslash | src/com/axeldev/PhpStringUtil.java:715 | `\\a` is left as it is and decodes to `\a`, losing a backslash |
| QuoteSafety.EscapeDoubleQuotedLetsQuoteOut | src/com/axeldev/PhpStringUtil.java:705-711 | text `\"` escapes to `\\"`, whose quote ends the literal early |
| QuoteSafety.EscapeDoubleQuotedCorrectedStaysInside | src/com/axeldev/PhpStringUtil.java:702-712 | with `"` among the escape tails, no escaped text ends its literal early |
| QuoteSafety.EscapeDoubleQuotedCorrectedRoundTrip | src/com/axeldev/PhpStringUtil.java:702-712 | the corrected escaper still round-trips for every text |
| QuoteSafety.EscapeSingleQuotedLetsQuoteOut | src/com/axeldev/PhpStringUtil.java:715 | text `\\'` escapes to `\\\\'`, whose quote ends the literal early |
| QuoteSafety.EscapeBackslashesAndQuotesStaysInside | src/com/axeldev/PhpReplaceQuotesWithConcatenationIntention.java:269-273 | text escaped by escaping every backslash and quote never ends its literal early |
| Literals.QuotedContent | src/com/axeldev/PhpStringUtil.java:301-305 | the content is the literal without its first and last characters |
| Literals.DoubleQuotedLiteral | src/com/axeldev/PhpStringUtil.java:796-799 | the escaped content between double quotes |
| Literals.SingleQuotedLiteral | src/com/axeldev/PhpStringUtil.java:806-809 | the escaped content between single quotes |
| Literals.DoubleQuotedLiteralFromContent | src/com/axeldev/PhpStringUtil.java:791-794 | the built double-quoted literal decodes to the content it was built from |
| Literals.DoubleQuotedLiteralFromContentCorrected | src/com/axeldev/PhpStringUtil.java:791-794 | built with the corrected escaper, the literal also keeps its content inside its quotes |
| Literals.SingleQuotedLiteralFromContent | src/com/axeldev/PhpStringUtil.java:801-804 | the built single-quoted literal decodes to its content when no backslash of the content is followed by another |
| Literals.SingleQuotedLiteralFromText | src/com/axeldev/PhpReplaceQuotesWithConcatenationIntention.java:264-273 | the concatenation intention's literal stays inside its quotes and decodes to the text, whatever the text |
| Literals.HeredocLiteral | src/com/axeldev/PhpStringUtil.java:816-819 | the opening, the lines of the content and the identifier are the lines of the heredoc |
| Literals.NowdocLiteral | src/com/axeldev/PhpStringUtil.java:831-834 | the opening, the lines of the content and the identifier are the lines of the nowdoc |
| Literals.HeredocLiteralFromContent | src/com/axeldev/PhpStringUtil.java:811-814 | the heredoc body decodes back to the content |
| Literals.ContainsIdentifierLine | src/com/axeldev/PhpStringUtil.java:782-784 | true exactly when the identifier matches between line anchors somewhere in the content |
| Literals.NowdocLiteralFromContent | src/com/axeldev/PhpStringUtil.java:821-829 | fails with the source's message exactly when a line of the content is the identifier, otherwise builds the nowdoc |
| Literals.NowdocClosesAtItsEnd | src/com/axeldev/PhpStringUtil.java:823-827 | the builder succeeds exactly when no line of the body closes the nowdoc early |
| Literals.GetIdentifier | src/com/axeldev/PhpStringUtil.java:525-529 | none when the start token has no identifier-start character; otherwise a PHP identifier that is the leftmost-longest match |
| Literals.GetIdentifierOfOpening | src/com/axeldev/PhpStringUtil.java:525-529 | the identifier is found again in the start token of the literals built with it |
| Literals.IdentifierInStart | src/com/axeldev/PhpStringUtil.java:525-529 | after characters that cannot start an identifier, a whole identifier followed by a non-identifier character is the one found |
| Literals.IdentifierOrNull | src/com/axeldev/PhpHeredocToNowdocWithEscapingIntention.java:68-82 | the identifier written into the nowdoc, `null` when there is none, is a PHP identifier whenever the found one is |
| StringOps.Trim | src/com/axeldev/PhpHeredocToNowdocWithEscapingIntention.java:98 | the result is a factor of the text that neither starts nor ends with a character at or below a space, and the dropped ends hold only such characters |
| StringOps.TrimEmptyIffBlank | src/com/axeldev/PhpHeredocToNowdocWithEscapingIntention.java:98-99 | trimming gives the empty string exactly on blank texts |
| StringOps.LinesMatchAnchors | src/com/axeldev/PhpStringUtil.java:783 | a text without a newline is one of the lines exactly when it occurs between a line start and a line end |
| Segmenter.CleanupEmbeddedExpression | src/com/axeldev/PhpStringUtil.java:735-775 | braces are dropped; an unbraced array access gets its index quoted when it is one identifier token or an octal-looking number; anything else is kept |
| Segmenter.CleanupKeepsDecimalIndex | src/com/axeldev/PhpStringUtil.java:761-768 | indexes `0` and `12` stay unquoted and `012` is quoted |
| Segmenter.Flush | src/com/axeldev/PhpStringUtil.java:461-479 | an empty buffer never reaches the text mapper |
| Segmenter.HeredocSegmentsStep | src/com/axeldev/PhpStringUtil.java:449-476 | delimiters are skipped, text and escape pieces are gathered, and an expression ends the gathered run |
| Segmenter.MapHeredocContent | src/com/axeldev/PhpStringUtil.java:443-486 | the buffer loop returns the mapper results of the runs and expressions in order, missing results dropped |
| Segmenter.HeredocSegmentsWellFormed | src/com/axeldev/PhpStringUtil.java:447-484 | no run of text is empty and no two runs are adjacent |
| Segmenter.HeredocSegmentsKeepExprOrder | src/com/axeldev/PhpStringUtil.java:443-486 | the expressions reach the mapper in the order of the pieces |
| Segmenter.HeredocSegmentsKeepText | src/com/axeldev/PhpStringUtil.java:443-486 | with mappers that keep their input, the results concatenate to all the non-delimiter text |
| Segmenter.HeredocContent | src/com/axeldev/PhpStringUtil.java:397-400 | the heredoc's content is the text of its pieces other than the delimiters |
| Segmenter.QuotesAreSkipped | src/com/axeldev/PhpStringUtil.java:347 | the delimiting quotes contribute nothing |
| Segmenter.QuotedPiecesInOrder | src/com/axeldev/PhpStringUtil.java:344-363 | with mappers that always answer, there is one result per piece, in order |
| Segmenter.MapDoubleQuotedComplexContent | src/com/axeldev/PhpStringUtil.java:337-365 | nothing for at most one piece; otherwise the loop returns the mapper results in order |
| Concatenation.DecimalRunAt | src/com/axeldev/PhpReplaceQuotesWithConcatenationIntention.java:155-176 | the decimal escape takes the longest run of at most three digits |
| Concatenation.NonComplexEscape | src/com/axeldev/PhpReplaceQuotesWithConcatenationIntention.java:214-250 | a mapped escape gives one character; any other pair, `\$` included, keeps both characters |
| Concatenation.DecodeNonComplex | src/com/axeldev/PhpReplaceQuotesWithConcatenationIntention.java:147-262 | the output is never longer than the input |
| Concatenation.NonComplexLiteral | src/com/axeldev/PhpReplaceQuotesWithConcatenationIntention.java:253-258 | outside an escape, a non-backslash character is copied |
| Concatenation.NonComplexPair | src/com/axeldev/PhpReplaceQuotesWithConcatenationIntention.java:214-250 | a pair that is neither numeric nor `\x` decodes through the escape table |
| Concatenation.NonComplexDecimal | src/com/axeldev/PhpReplaceQuotesWithConcatenationIntention.java:155-176 | a backslash and one to three digits give the character of their base-10 value; a following non-digit is processed normally |
| Concatenation.NonComplexHex | src/com/axeldev/PhpReplaceQuotesWithConcatenationIntention.java:177-213 | `\x` and one or two hexadecimal digits give one character |
| Concatenation.NonComplexBareHexMark | src/com/axeldev/PhpReplaceQuotesWithConcatenationIntention.java:177-213 | `\x` before a non-hexadecimal character is copied and that character is processed normally |
| Concatenation.PendingIsDropped | src/com/axeldev/PhpReplaceQuotesWithConcatenationIntention.java:151-261 | an escape still pending at the end of the text produces nothing |
| Concatenation.ReadNewCharacter | src/com/axeldev/PhpReplaceQuotesWithConcatenationIntention.java:253-258 | the state for a new character advances the decoding by one character |
| Concatenation.ReadPotentialEscape | src/com/axeldev/PhpReplaceQuotesWithConcatenationIntention.java:155-250 | the state after a backslash advances the decoding by one character |
| Concatenation.ReadDecimalEscape | src/com/axeldev/PhpReplaceQuotesWithConcatenationIntention.java:159-176 | the decimal state advances the decoding by one character |
| Concatenation.ReadPotentialHexEscape | src/com/axeldev/PhpReplaceQuotesWithConcatenationIntention.java:177-181 | the state after `\x` advances the decoding by one character |
| Concatenation.ReadHexEscape | src/com/axeldev/PhpReplaceQuotesWithConcatenationIntention.java:182-213 | the hexadecimal state advances the decoding by one character |
| Concatenation.ConsumeCharacter | src/com/axeldev/PhpReplaceQuotesWithConcatenationIntention.java:151-260 | one iteration of the state-machine loop keeps the pending state well-formed and advances the reference decoding by one character |
| Concatenation.ReadCharacter | src/com/axeldev/PhpReplaceQuotesWithConcatenationIntention.java:151-260 | one loop iteration, in any state, advances the decoding by one character |
| Concatenation.UnescapeNonComplexContent | src/com/axeldev/PhpReplaceQuotesWithConcatenationIntention.java:147-262 | the state-machine loop returns exactly the reference decoding |
| Concatenation.DecodersAgree | src/com/axeldev/PhpReplaceQuotesWithConcatenationIntention.java:147-262 | without numeric or `\$` escapes, this decoder agrees with the PHP double-quoted decoder |
| Concatenation.DecimalEscapeMisread | src/com/axeldev/PhpReplaceQuotesWithConcatenationIntention.java:155-176 | `\101` gives the character 101, where PHP reads octal `A` |
| Concatenation.TrailingEscapeDropped | src/com/axeldev/PhpReplaceQuotesWithConcatenationIntention.java:151-261 | `a\12` at the end of a fragment gives `a`, where PHP gives `a` and a newline |
| Concatenation.DollarEscapeKept | src/com/axeldev/PhpReplaceQuotesWithConcatenationIntention.java:241-245 | `\$` keeps its backslash, where PHP gives `$` |
| Concatenation.RealText | src/com/axeldev/PhpReplaceQuotesWithConcatenationIntention.java:95-124 | braces are dropped, an unbraced array access always gets its key quoted, anything else is kept |
| Concatenation.RealTextAndCleanup | src/com/axeldev/PhpReplaceQuotesWithConcatenationIntention.java:109-124 | it differs from the shared clean-up exactly on array accesses whose index the clean-up leaves unquoted |
| Concatenation.FragmentOperand | src/com/axeldev/PhpReplaceQuotesWithConcatenationIntention.java:264-273 | a fragment becomes a literal that stays inside its quotes and denotes the fragment's decoding |
| Concatenation.ConcatenationOf | src/com/axeldev/PhpReplaceQuotesWithConcatenationIntention.java:76-107 | nothing without pieces; several pieces give the operands joined by `.`; a plain literal gives one literal denoting its decoded content |
| Concatenation.OperandsInOrder | src/com/axeldev/PhpReplaceQuotesWithConcatenationIntention.java:83-99 | between the quotes, every piece gives one operand, in order |
| Concatenation.ConcatenationOperands | src/com/axeldev/PhpReplaceQuotesWithConcatenationIntention.java:84-98 | the loop returns the operands of the pieces in order, quotes skipped |
| Concatenation.ReplaceQuotesWithConcatenation | src/com/axeldev/PhpReplaceQuotesWithConcatenationIntention.java:76-107 | the intention computes the conversion |
| Concatenation.CorrectedFragmentOperand | src/com/axeldev/PhpReplaceQuotesWithConcatenationIntention.java:91 | the corrected fragment becomes a literal that stays inside its quotes and denotes the PHP decoding of the fragment |
| Concatenation.ExprOperandCorrected | src/com/axeldev/PhpReplaceQuotesWithConcatenationIntention.java:95-96 | the corrected expression text leaves unquoted exactly the array keys PHP does not read as strings, and otherwise equals the real text |
| Concatenation.ConcatenationOfCorrected | src/com/axeldev/PhpReplaceQuotesWithConcatenationIntention.java:76-107 | with the PHP decoder, a plain literal becomes one that denotes exactly what the original literal denotes |
| Concatenation.VariableKeyQuoted | src/com/axeldev/PhpReplaceQuotesWithConcatenationIntention.java:116-120 | `"$a[$i]"` becomes `$a['$i']`, a lookup of the literal key `$i` |
| Concatenation.VariableKeyKept | src/com/axeldev/PhpStringUtil.java:735-775 | the corrected conversion turns `"$a[$i]"` into `$a[$i]` |
| Concatenation.ConversionsAgree | src/com/axeldev/PhpReplaceQuotesWithConcatenationIntention.java:103 | without numeric or `\$` escapes, the as-written and corrected conversions give the same literal |
| SingleToDouble.OldEscapeSequences | src/com/axeldev/PhpReplaceQuotesWithEscapingIntention.java:76 | text without a backslash is unchanged by the sequence step |
| SingleToDouble.OldEscapeDoubleQuoted | src/com/axeldev/PhpReplaceQuotesWithEscapingIntention.java:73-79 | text without a backslash, `"` or `$` is unchanged |
| SingleToDouble.OldEscapeForm | src/com/axeldev/php/lang/intentions/PhpReplaceQuotesWithEscapingIntention.java:73-81 | the three replacements equal the character-by-character form, in both variants |
| SingleToDouble.OldForm | src/com/axeldev/PhpReplaceQuotesWithEscapingIntention.java:73-79 | the older escaper only adds characters, and text without a backslash, `"` or `$` is unchanged |
| SingleToDouble.OldFormRoundTrip | src/com/axeldev/PhpReplaceQuotesWithEscapingIntention.java:73-79 | the double-quoted decoder undoes the form when no backslash of the text is followed by another |
| SingleToDouble.OldEscapeRoundTrip | src/com/axeldev/php/lang/intentions/PhpReplaceQuotesWithEscapingIntention.java:73-81 | both old escapers round-trip through the double-quoted decoder on such texts |
| SingleToDouble.OldEscapeLosesBackslash | src/com/axeldev/PhpReplaceQuotesWithEscapingIntention.java:76 | `\\n` escapes to `\\\n`, which decodes to a backslash and a newline |
| SingleToDouble.TrailingBackslashLetsQuoteOut | src/com/axeldev/php/lang/intentions/PhpReplaceQuotesWithEscapingIntention.java:76 | without the end-of-input alternative, a final backslash escapes the closing quote |
| SingleToDouble.OldSingleQuotedContent | src/com/axeldev/PhpReplaceQuotesWithEscapingIntention.java:55-65 | the content is the literal without its quotes, single-quote decoded |
| SingleToDouble.ReplaceQuotesWithEscaping | src/com/axeldev/PhpReplaceQuotesWithEscapingIntention.java:41-79 | the double-quoted literal denotes the single-quoted literal's text when no backslash of that text is followed by another |
| SingleToDouble.ReplaceQuotesWithEscapingCorrected | src/com/axeldev/PhpReplaceQuotesWithEscapingIntention.java:41-79 | built with the corrected escaper, the double-quoted literal keeps its content inside its quotes and denotes the single-quoted literal's text, whatever the text |
| Conversions.MapSegmentsEmpty | src/com/axeldev/PhpStringUtil.java:461-484 | the mapped list is empty exactly when the mappers give nothing for every segment |
| Conversions.CollisionsFound | src/com/axeldev/PhpHeredocToNowdocWithEscapingIntention.java:69-76 | the first pass finds something exactly when some run's decoded text has the identifier as a line |
| Conversions.Collision | src/com/axeldev/PhpHeredocToNowdocWithEscapingIntention.java:69-76 | the first pass marks a run exactly when its decoded text has the identifier as a line |
| Conversions.NowdocBlock | src/com/axeldev/PhpHeredocToNowdocWithEscapingIntention.java:80-88 | a run becomes the nowdoc literal of its decoded text followed by a newline |
| Conversions.HeredocToNowdocConcatenation | src/com/axeldev/PhpHeredocToNowdocWithEscapingIntention.java:67-101 | fails with the source's message exactly when a run collides with the identifier; a result is never empty and starts with a kept character |
| Conversions.ConvertHeredocToNowdoc | src/com/axeldev/PhpHeredocToNowdocWithEscapingIntention.java:67-101 | the two passes over the pieces compute the conversion |
| Conversions.HeredocWithoutExpressions | src/com/axeldev/PhpHeredocToNowdocWithEscapingIntention.java:80-99 | a heredoc without expressions gives nothing when empty, the failure when its decoded content has the identifier as a line, and otherwise one nowdoc literal of its decoded content |
| Conversions.RunThenExpression | src/com/axeldev/PhpHeredocToNowdocWithEscapingIntention.java:67-101 | a run followed by an expression gives the failure when the run collides, and otherwise the run's nowdoc, a newline, ` . ` and the cleaned-up expression |
| Conversions.TrimmedBlock | src/com/axeldev/PhpHeredocToNowdocWithEscapingIntention.java:80-98 | trimming removes only the newline after a nowdoc block's closing identifier |
| Conversions.FragmentLiteral | src/com/axeldev/PhpReplaceDoubleQuotesWithEscapingIntention.java:57-63 | a fragment becomes a single-quoted literal of its decoded text, which it denotes when no backslash of that text is followed by another |
| Conversions.DoubleQuotedToSingleQuoted | src/com/axeldev/PhpReplaceDoubleQuotesWithEscapingIntention.java:55-77 | an interpolated literal with too few pieces gives nothing; a result is never empty; a plain literal gives a single-quoted literal that denotes the same text when no backslash of it is followed by another |
| Conversions.ConvertDoubleQuotedToSingleQuoted | src/com/axeldev/PhpReplaceDoubleQuotesWithEscapingIntention.java:55-77 | the intention with the piece loop computes the conversion |
| Conversions.SingleQuotedOperandsInOrder | src/com/axeldev/PhpReplaceDoubleQuotesWithEscapingIntention.java:57-70 | between the quotes every fragment becomes a single-quoted literal and every expression its cleaned-up text, one operand per piece, in order |
| Conversions.InterpolatedWithFragment | src/com/axeldev/PhpReplaceDoubleQuotesWithEscapingIntention.java:70-72 | an interpolated literal with a text fragment always gives the join of its operands |
| Conversions.CollapseBackslashes | src/com/axeldev/PhpHeredocToNowdocIntention.java:51 | the length shrinks by the number of collapsed pairs, and text without a backslash is unchanged |
| Conversions.DoubleBackslashes | src/com/axeldev/PhpNowdocToHeredocIntention.java:46 | the length grows by the number of backslashes, and text without a backslash is unchanged |
| Conversions.HeredocToNowdoc | src/com/axeldev/PhpHeredocToNowdocIntention.java:49-54 | the nowdoc's lines are its opening, the lines of the collapsed content and the heredoc's identifier |
| Conversions.NowdocToHeredoc | src/com/axeldev/PhpNowdocToHeredocIntention.java:44-49 | the heredoc's lines are its opening, the lines of the doubled content and the nowdoc's identifier |
| Conversions.CollapseUndoesDoubling | src/com/axeldev/PhpNowdocToHeredocIntention.java:46 | collapsing backslash pairs undoes doubling every backslash |
| Conversions.DoubledBackslashesDecode | src/com/axeldev/PhpNowdocToHeredocIntention.java:46 | heredoc content with every backslash doubled decodes to the nowdoc content |
| Conversions.SwapsRoundTrip | src/com/axeldev/PhpHeredocToNowdocIntention.java:49-54 | turning back a heredoc that holds the doubled content gives the nowdoc of the original content |

## Left out

- The IDE layer is not modelled. This covers finding the literal under the caret, the token-type tests, building PSI from text, replacing the element, error hints, and the intentions' availability and labels. Examples: heredoc conversions are only offered for a non-empty heredoc, the label mentions variable concatenation when expressions are embedded, and the double-quoted conversion is not offered for `""`. The lexer's pieces are inputs of the model.
- The two thin intentions that only chain two library calls are not modelled: single-quoted to double-quoted, and nowdoc to heredoc with escaping.
- Java's regular-expression fine print is simplified, with `\n` as the only line terminator:
  - Java's `$` anchor also matches before a final line terminator.
  - Multiline `^` and `$` also recognise other terminators.
- Characters are code points with ASCII classes. `Character.isDigit` is modelled as the ASCII digits only.
- PhpChars.OctalEscapeChar and PhpChars.DecimalEscapeChar: the `(char)` cast of values above 65535 is not modelled; three octal digits stay below 512 and three decimal digits below 1000.
- StringOps.Trim: `String.trim` is modelled on characters no greater than a space; no other whitespace is involved.
- A null mapper is modelled as a mapper that keeps nothing. A null identifier is modelled as the text `null`, which is what Java's concatenation writes.
- A nowdoc without content has no content token, and the source's lookup then fails. Conversions.NowdocToHeredoc takes the content as an input instead.
- Conversions.DoubledBackslashesDecode: it is about the decoder only. After doubling backslashes, a `$name` in the nowdoc becomes an interpolated variable of the heredoc, which the model does not express (the intention's title warns that semantics may change).
- Conversions.HeredocToNowdoc: like the source, it checks no delimiter collision.
- Escape regular expressions are modelled one character at a time. A look-ahead, or a consuming match whose tail holds no backslash, gives the same text as character-level rules, and the doc comments say which applies.

## Findings

| source | as written | input that shows it | evidently intended | confidence | as-written member | corrected member |
|---|---|---|---|---|---|---|
| src/com/axeldev/PhpStringUtil.java:705 | the double-quoted escaper does not double a backslash that precedes `"`, and the quote then gets its own backslash | text `\"` gives `\\"`, whose quote ends the literal | `"` among the escape tails, so that text `\"` gives `\\\"` | high, not executed | QuoteSafety.EscapeDoubleQuotedLetsQuoteOut | QuoteSafety.EscapeDoubleQuotedCorrectedStaysInside |
| src/com/axeldev/PhpStringUtil.java:715 | the single-quoted escaper leaves a backslash before another backslash alone | text `\\a` gives `\\a`, which PHP reads as `\a`; text `\\'` gives `\\\\'`, whose quote ends the literal | escape every backslash and every quote | high, not executed | RoundTrip.EscapeSingleQuotedLosesBackslash | RoundTrip.EscapeBackslashesAndQuotesRoundTrip |
| src/com/axeldev/PhpReplaceQuotesWithConcatenationIntention.java:155-245 | the concatenation decoder reads numeric escapes as decimal, drops an escape still pending at the end of a fragment, and keeps the backslash of `\$` | `\101` gives the character 101 instead of `A`; `a\12` gives `a` instead of `a` and a newline; `\$` stays `\$` | decode as PHP does, with the shared double-quoted decoder | high, not executed | Concatenation.DecimalEscapeMisread | Concatenation.ConcatenationOfCorrected |
| src/com/axeldev/PhpReplaceQuotesWithEscapingIntention.java:76 | the older double-quoted escaper adds one backslash to a backslash pair | text `\\n` gives `\\\n`, which PHP reads as a backslash and a newline | double every backslash of a pair, as the shared escaper does | medium, not executed | SingleToDouble.OldEscapeLosesBackslash | SingleToDouble.ReplaceQuotesWithEscapingCorrected |
| src/com/axeldev/PhpReplaceQuotesWithConcatenationIntention.java:116-120 | the concatenation intention quotes the key of every unbraced array access | `"$a[$i]"` gives `$a['$i']`, a lookup of the literal key `$i` instead of the key held by `$i` | quote the key only where PHP reads it as a string, as the heredoc clean-up does | medium, not executed | Concatenation.VariableKeyQuoted | Concatenation.VariableKeyKept |

The corrected members are used in the model next to the as-written ones:

- Literals.DoubleQuotedLiteralFromContentCorrected builds with the corrected double-quoted escaper.
- Literals.SingleQuotedLiteralFromText builds with the escaper that escapes every backslash. The concatenation conversion uses it.
- Concatenation.ConcatenationOfCorrected uses the PHP decoder and the heredoc clean-up of embedded expressions.
- SingleToDouble.ReplaceQuotesWithEscapingCorrected builds with the corrected double-quoted escaper.

The shared single-quoted builder and the conversions built on it keep the as-written escaper. Those are the conversions the source performs, and their contracts state the proviso under which they are correct.
