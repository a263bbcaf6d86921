/** Building PHP string literals from their content, taking the content out of a quoted literal,
    finding the identifier of a heredoc or nowdoc, and the check that keeps a nowdoc from being
    closed early by its own content. */
module Literals {
  import opened Wrappers
  import opened PhpChars
  import opened StringOps
  import opened Unescape
  import opened Escape
  import opened RoundTrip
  import opened QuoteSafety

  /** The content of a quoted literal: the text without its first and its last character. */
  function QuotedContent(literal: string): (content: string)
    requires |literal| >= 2
    ensures literal == [literal[0]] + content + [literal[|literal| - 1]]
  {
    literal[1..|literal| - 1]
  }

  function DoubleQuotedLiteral(escaped: string): (lit: string)
    ensures |lit| >= 2 && lit[0] == DoubleQuote && lit[|lit| - 1] == DoubleQuote
    ensures QuotedContent(lit) == escaped
  {
    [DoubleQuote] + escaped + [DoubleQuote]
  }

  function SingleQuotedLiteral(escaped: string): (lit: string)
    ensures |lit| >= 2 && lit[0] == SingleQuote && lit[|lit| - 1] == SingleQuote
    ensures QuotedContent(lit) == escaped
  {
    [SingleQuote] + escaped + [SingleQuote]
  }

  /** `createPhpDoubleQuotedStringPsiFromContent`: the content escaped with the double-quoted
      escaper, between double quotes; decoding its content gives the text back. */
  function DoubleQuotedLiteralFromContent(content: string): (lit: string)
    ensures |lit| >= 2 && lit[0] == DoubleQuote && lit[|lit| - 1] == DoubleQuote
    ensures UnescapeDoubleQuoted(QuotedContent(lit)) == content
  {
    EscapeDoubleQuotedRoundTrip(content);
    DoubleQuotedLiteral(EscapeDoubleQuoted(content))
  }

  /** The same literal escaped with the corrected double-quoted escaper: it also scans as one
      literal. */
  function DoubleQuotedLiteralFromContentCorrected(content: string): (lit: string)
    ensures |lit| >= 2 && lit[0] == DoubleQuote && lit[|lit| - 1] == DoubleQuote
    ensures StaysInsideDoubleQuotes(QuotedContent(lit))
    ensures UnescapeDoubleQuoted(QuotedContent(lit)) == content
  {
    EscapeDoubleQuotedCorrectedStaysInside(content);
    EscapeDoubleQuotedCorrectedRoundTrip(content);
    DoubleQuotedLiteral(EscapeDoubleQuotedCorrected(content))
  }

  /** `createPhpSingleQuotedStringPsiFromContent`: the content escaped with the single-quoted
      escaper, between single quotes; it denotes the content when no backslash of the content
      is followed by another. */
  function SingleQuotedLiteralFromContent(content: string): (lit: string)
    ensures |lit| >= 2 && lit[0] == SingleQuote && lit[|lit| - 1] == SingleQuote
    ensures NoDoubledBackslash(content) ==> UnescapeSingleQuoted(QuotedContent(lit)) == content
  {
    if NoDoubledBackslash(content) then
      EscapeSingleQuotedRoundTrip(content);
      SingleQuotedLiteral(EscapeSingleQuoted(content))
    else SingleQuotedLiteral(EscapeSingleQuoted(content))
  }

  /** The concatenation intention's `getPhpSingleQuotedStringLiteralFromText`: every backslash
      and every quote escaped, between single quotes; it scans as one literal and denotes the
      text, whatever the text. */
  function SingleQuotedLiteralFromText(text: string): (lit: string)
    ensures |lit| >= 2 && lit[0] == SingleQuote && lit[|lit| - 1] == SingleQuote
    ensures StaysInsideSingleQuotes(QuotedContent(lit))
    ensures UnescapeSingleQuoted(QuotedContent(lit)) == text
  {
    EscapeBackslashesAndQuotesStaysInside(text);
    EscapeBackslashesAndQuotesRoundTrip(text);
    SingleQuotedLiteral(EscapeBackslashesAndQuotes(text))
  }

  function HeredocOpening(id: string): string {
    "<<<" + id
  }

  function NowdocOpening(id: string): string {
    "<<<'" + id + "'"
  }

  /** The opening line, the escaped content and the closing identifier, on lines of their own. */
  function HeredocLiteral(escaped: string, id: string): (lit: string)
    ensures '\n' !in id ==> Lines(lit) == [HeredocOpening(id)] + Lines(escaped) + [id]
  {
    var lit := HeredocOpening(id) + "\n" + escaped + "\n" + id;
    if '\n' in id then lit else LiteralLines(HeredocOpening(id), escaped, id); lit
  }

  function NowdocLiteral(escaped: string, id: string): (lit: string)
    ensures '\n' !in id ==> Lines(lit) == [NowdocOpening(id)] + Lines(escaped) + [id]
  {
    var lit := NowdocOpening(id) + "\n" + escaped + "\n" + id;
    if '\n' in id then lit else LiteralLines(NowdocOpening(id), escaped, id); lit
  }

  lemma LiteralLines(opening: string, escaped: string, id: string)
    requires '\n' !in id
    requires '\n' !in opening
    ensures Lines(opening + "\n" + escaped + "\n" + id) == [opening] + Lines(escaped) + [id]
  {
    var tail := escaped + "\n" + id;
    RegroupLines(opening, escaped, id);
    LinesAroundNewline(opening, tail);
    LinesJoin(escaped, id);
    LinesWithoutNewline(id);
  }

  lemma RegroupLines(a: string, b: string, c: string)
    ensures a + "\n" + b + "\n" + c == a + "\n" + (b + "\n" + c)
  {
  }

  lemma LinesWithoutNewline(s: string)
    requires '\n' !in s
    ensures Lines(s) == [s]
  {
    assert IndexOf(s, '\n') == |s|;
  }

  /** A heredoc whose content is escaped with the heredoc escaper: its middle lines denote the
      content. */
  function HeredocLiteralFromContent(content: string, id: string): (lit: string)
    ensures lit == HeredocLiteral(EscapeHeredoc(content), id)
    ensures UnescapeHeredoc(EscapeHeredoc(content)) == content
  {
    EscapeHeredocRoundTrip(content);
    HeredocLiteral(EscapeHeredoc(content), id)
  }

  /** The check that the content has a line that is exactly the identifier: the multiline
      pattern `^id$` matches somewhere in the content. */
  function ContainsIdentifierLine(content: string, id: string): (b: bool)
    ensures '\n' !in id ==> (b <==> exists i | 0 <= i <= |content| :: LineAt(content, i, id))
  {
    if '\n' !in id then LinesMatchAnchors(content, id); id in Lines(content)
    else id in Lines(content)
  }

  const NowdocContainsDelimiterMessage: string :=
    "Error on creating NOWDOC string literal.\nNOWDOC content contains the NOWDOC delimiter itself."

  /** A nowdoc holding `content` literally, or the failure the source throws when a line of the
      content is the identifier, which would end the nowdoc early. */
  function NowdocLiteralFromContent(content: string, id: string): (r: Result<string, string>)
    ensures r.Failure? <==> id in Lines(content)
    ensures r.Failure? ==> r.error == NowdocContainsDelimiterMessage
    ensures r.Success? ==> r.value == NowdocLiteral(content, id)
  {
    var escaped := EscapeNowdoc(content);
    if ContainsIdentifierLine(escaped, id) then Failure(NowdocContainsDelimiterMessage)
    else Success(NowdocLiteral(escaped, id))
  }

  /** When the builder succeeds, the first line after the opening that is the identifier is the
      closing line; when it fails, an earlier line would have closed the nowdoc. */
  lemma NowdocClosesAtItsEnd(content: string, id: string)
    requires '\n' !in id
    ensures var ls := Lines(NowdocLiteral(content, id));
      NowdocLiteralFromContent(content, id).Success? <==> forall k | 1 <= k < |ls| - 1 :: ls[k] != id
  {
    var ls := Lines(NowdocLiteral(content, id));
    var cl := Lines(content);
    assert ls == [NowdocOpening(id)] + cl + [id];
    assert forall k | 1 <= k < |ls| - 1 :: ls[k] == cl[k - 1];
    if id in cl {
      var j :| 0 <= j < |cl| && cl[j] == id;
      assert ls[j + 1] == id;
    }
  }

  // ---- identifiers ----

  /** Index of the first character from `i` on that can start an identifier. */
  function IdentifierStartFrom(s: string, i: nat): (k: nat)
    requires i <= |s|
    ensures i <= k <= |s|
    ensures forall j | i <= j < k :: !IsIdentifierStart(s[j])
    ensures k < |s| ==> IsIdentifierStart(s[k])
    decreases |s| - i
  {
    if i == |s| || IsIdentifierStart(s[i]) then i else IdentifierStartFrom(s, i + 1)
  }

  /** End of the run of identifier characters starting at `i`. */
  function IdentifierCharsFrom(s: string, i: nat): (k: nat)
    requires i <= |s|
    ensures i <= k <= |s|
    ensures forall j | i <= j < k :: IsIdentifierChar(s[j])
    ensures k < |s| ==> !IsIdentifierChar(s[k])
    decreases |s| - i
  {
    if i == |s| || !IsIdentifierChar(s[i]) then i else IdentifierCharsFrom(s, i + 1)
  }

  /** `id` is the leftmost-longest match of the identifier pattern in `s`, at index `i`. */
  ghost predicate FirstIdentifierAt(s: string, i: int, id: string) {
    0 <= i && i + |id| <= |s| && s[i..i + |id|] == id
    && (forall j | 0 <= j < i :: !IsIdentifierStart(s[j]))
    && (i + |id| == |s| || !IsIdentifierChar(s[i + |id|]))
  }

  /** The identifier of a heredoc or nowdoc: the first match of the PHP identifier pattern in its
      start token, or none. */
  function GetIdentifier(start: string): (r: Option<string>)
    ensures r.None? <==> forall j | 0 <= j < |start| :: !IsIdentifierStart(start[j])
    ensures r.Some? ==> IsPhpIdentifier(r.value) && exists i :: FirstIdentifierAt(start, i, r.value)
  {
    var i := IdentifierStartFrom(start, 0);
    if i == |start| then None
    else
      var k := IdentifierCharsFrom(start, i + 1);
      var id := start[i..k];
      assert FirstIdentifierAt(start, i, id);
      Some(id)
  }

  /** Java's string concatenation writes a missing identifier as `null`. */
  function IdentifierOrNull(id: Option<string>): (r: string)
    ensures id.None? || IsPhpIdentifier(id.value) ==> IsPhpIdentifier(r)
  {
    match id
    case Some(v) => v
    case None =>
      var n := "null";
      assert forall i | 1 <= i < |n| :: IsIdentifierChar(n[i]);
      n
  }

  /** The identifier is found again in the start token of the literals built with it. */
  lemma GetIdentifierOfOpening(id: string)
    requires IsPhpIdentifier(id)
    ensures GetIdentifier(HeredocOpening(id) + "\n") == Some(id)
    ensures GetIdentifier(NowdocOpening(id) + "\n") == Some(id)
  {
    HeredocIdentifier(id);
    NowdocIdentifier(id);
  }

  lemma HeredocIdentifier(id: string)
    requires IsPhpIdentifier(id)
    ensures GetIdentifier(HeredocOpening(id) + "\n") == Some(id)
  {
    var before := "<<<";
    assert forall j | 0 <= j < |before| :: before[j] == '<';
    IdentifierInStart(before, id, "\n");
  }

  lemma NowdocIdentifier(id: string)
    requires IsPhpIdentifier(id)
    ensures GetIdentifier(NowdocOpening(id) + "\n") == Some(id)
  {
    var before := "<<<'";
    assert forall j | 0 <= j < |before| :: before[j] == '<' || before[j] == SingleQuote;
    var after := "'\n";
    assert after[0] == SingleQuote;
    assert NowdocOpening(id) + "\n" == before + id + after;
    IdentifierInStart(before, id, after);
  }

  lemma IdentifierInStart(before: string, id: string, after: string)
    requires IsPhpIdentifier(id)
    requires forall j | 0 <= j < |before| :: !IsIdentifierStart(before[j])
    requires after != [] && !IsIdentifierChar(after[0])
    ensures GetIdentifier(before + id + after) == Some(id)
  {
    var s := before + id + after;
    var n := |before|;
    assert forall j | 0 <= j < n :: s[j] == before[j];
    assert s[n] == id[0];
    var i := IdentifierStartFrom(s, 0);
    assert i == n;
    assert forall j | n + 1 <= j < n + |id| :: s[j] == id[j - n];
    assert s[n + |id|] == after[0];
    var k := IdentifierCharsFrom(s, n + 1);
    assert k == n + |id|;
    assert s[n..k] == id;
  }
}
