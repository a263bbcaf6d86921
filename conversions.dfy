/** The conversions of the escaping intentions between literal kinds: a heredoc into nowdocs
    joined with its embedded expressions, a double-quoted literal into single-quoted literals
    joined with its embedded expressions, and the plain heredoc/nowdoc swaps, which only adjust
    backslashes. */
module Conversions {
  import opened Wrappers
  import opened PhpChars
  import opened StringOps
  import opened Unescape
  import opened Escape
  import opened RoundTrip
  import opened Literals
  import opened Segmenter
  import DecodeFacts

  // ---- mapping segments ----

  /** What a mapper gives for one segment. */
  function SegmentResult(seg: Segment, tm: string -> Option<string>, em: EmbeddedExpr -> Option<string>): Option<string> {
    match seg
    case TextRun(t) => tm(t)
    case ExprSegment(e) => em(e)
  }

  /** The mapped list is empty exactly when the mappers give nothing for every segment. */
  lemma {:induction false} MapSegmentsEmpty(segs: seq<Segment>, tm: string -> Option<string>,
                                            em: EmbeddedExpr -> Option<string>)
    ensures MapSegments(segs, tm, em) == [] <==> forall k | 0 <= k < |segs| :: SegmentResult(segs[k], tm, em).None?
    decreases |segs|
  {
    if segs != [] {
      var tail := segs[1..];
      MapSegmentsEmpty(tail, tm, em);
      assert forall k | 1 <= k < |segs| :: segs[k] == tail[k - 1];
      if SegmentResult(segs[0], tm, em).None? && MapSegments(tail, tm, em) == [] {
        forall k | 0 <= k < |segs| ensures SegmentResult(segs[k], tm, em).None? {
          if k > 0 {
            assert segs[k] == tail[k - 1];
          }
        }
      }
    }
  }

  // ---- heredoc to nowdoc, with escaping ----

  const HeredocContainsDelimiterMessage: string :=
    "Cannot perform refactoring.\nUnescaped heredoc content contains the heredoc delimiter itself."

  /** A run of heredoc content, decoded and written as nowdoc content. */
  function NowdocText(t: string): string {
    EscapeNowdoc(UnescapeHeredoc(t))
  }

  /** A run whose decoded text has a line that is the identifier: as the body of a nowdoc, that
      line would close it early. */
  predicate Collides(seg: Segment, id: string) {
    seg.TextRun? && id in Lines(NowdocText(seg.text))
  }

  /** Some run of the segments collides with the identifier. */
  predicate HasCollision(segs: seq<Segment>, id: string) {
    exists k | 0 <= k < |segs| :: Collides(segs[k], id)
  }

  /** The mapper of the first pass: a marker exactly for a run that collides. */
  function Collision(id: string, t: string): (r: Option<string>)
    ensures r.Some? <==> Collides(TextRun(t), id)
  {
    if ContainsIdentifierLine(NowdocText(t), id) then Some("invalid") else None
  }

  function CollisionMapper(id: string): string -> Option<string> {
    t => Collision(id, t)
  }

  /** The source passes no expression mapper to the first pass, which keeps nothing for an
      expression. */
  function NoExprMapper(e: EmbeddedExpr): Option<string> {
    None
  }

  /** A run as a nowdoc, with a newline after the closing identifier so that an operator after
      it cannot share its line. */
  function NowdocBlock(id: string, t: string): (b: string)
    ensures b == NowdocLiteral(NowdocText(t), id) + "\n"
  {
    "<<<'" + id + "'\n" + NowdocText(t) + "\n" + id + "\n"
  }

  function Block(id: string, t: string): Option<string> {
    Some(NowdocBlock(id, t))
  }

  function BlockMapper(id: string): string -> Option<string> {
    t => Block(id, t)
  }

  /** Expressions are written out with `cleanupStringEmbeddedExpression`. */
  function CleanupMapper(e: EmbeddedExpr): Option<string> {
    Some(CleanupEmbeddedExpression(e))
  }

  /** The first pass finds something exactly when some run collides. */
  lemma CollisionsFound(segs: seq<Segment>, id: string)
    ensures MapSegments(segs, CollisionMapper(id), NoExprMapper) != [] <==> HasCollision(segs, id)
  {
    MapSegmentsEmpty(segs, CollisionMapper(id), NoExprMapper);
    forall k | 0 <= k < |segs|
      ensures SegmentResult(segs[k], CollisionMapper(id), NoExprMapper).Some? <==> Collides(segs[k], id)
    {
    }
  }

  /** `convertPhpHeredocToNowdocAndVariablesConcatenation`: the failure the source throws when a
      run collides with the identifier; otherwise the nowdocs of the runs and the expressions
      joined by ` . ` and trimmed, or nothing when that is empty. */
  function HeredocToNowdocConcatenation(start: string, pieces: seq<Piece>): (r: Result<Option<string>, string>)
    ensures r.Failure? <==> HasCollision(HeredocSegments(pieces, []), IdentifierOrNull(GetIdentifier(start)))
    ensures r.Failure? ==> r.error == HeredocContainsDelimiterMessage
    ensures r.Success? && r.value.Some? ==> r.value.value != [] && !IsTrimmed(r.value.value[0])
  {
    var id := IdentifierOrNull(GetIdentifier(start));
    var segs := HeredocSegments(pieces, []);
    CollisionsFound(segs, id);
    if MapSegments(segs, CollisionMapper(id), NoExprMapper) != [] then Failure(HeredocContainsDelimiterMessage)
    else
      var joined := Trim(Join(MapSegments(segs, BlockMapper(id), CleanupMapper), " . "));
      if joined == [] then Success(None) else Success(Some(joined))
  }

  /** The intention's two passes over the heredoc's pieces. */
  method ConvertHeredocToNowdoc(start: string, pieces: seq<Piece>) returns (r: Result<Option<string>, string>)
    ensures r == HeredocToNowdocConcatenation(start, pieces)
  {
    var id := IdentifierOrNull(GetIdentifier(start));
    var found := MapHeredocContent(pieces, CollisionMapper(id), NoExprMapper);
    if |found| > 0 {
      return Failure(HeredocContainsDelimiterMessage);
    }
    var operands := MapHeredocContent(pieces, BlockMapper(id), CleanupMapper);
    var joined := Trim(Join(operands, " . "));
    if joined == [] {
      return Success(None);
    }
    return Success(Some(joined));
  }

  /** Without expressions the pieces form at most one run: all their text. */
  lemma {:induction false} SegmentsWithoutExpressions(pieces: seq<Piece>, buffer: string)
    requires forall k | 0 <= k < |pieces| :: !pieces[k].Expr?
    ensures HeredocSegments(pieces, buffer) == Flush(buffer + ContentText(pieces))
    decreases |pieces|
  {
    if pieces == [] {
      assert buffer + ContentText(pieces) == buffer;
    } else {
      var tail := pieces[1..];
      assert forall k | 0 <= k < |tail| :: tail[k] == pieces[k + 1];
      SegmentsWithoutExpressions(tail, buffer + PieceText(pieces[0]));
      assert buffer + PieceText(pieces[0]) + ContentText(tail) == buffer + ContentText(pieces);
      match pieces[0] {
        case Start =>
          assert buffer + PieceText(pieces[0]) == buffer;
        case End =>
          assert buffer + PieceText(pieces[0]) == buffer;
        case Text(t) =>
        case Escape(t) =>
      }
    }
  }

  /** The single nowdoc block, trimmed, is the nowdoc literal of the run. */
  lemma TrimmedBlock(id: string, t: string)
    requires IsPhpIdentifier(id)
    ensures Trim(NowdocBlock(id, t)) == NowdocLiteral(NowdocText(t), id)
  {
    var b := NowdocBlock(id, t);
    var lit := NowdocLiteral(NowdocText(t), id);
    assert b == lit + "\n";
    assert b[0] == '<';
    assert b[|b| - 2] == id[|id| - 1];
    assert IsIdentifierChar(id[|id| - 1]);
    IdentifierCharsArePrintable(id[|id| - 1]);
    TrimDropsFinalNewline(b);
    assert b[..|b| - 1] == lit;
  }

  lemma TrimEmpty()
    ensures Trim("") == ""
  {
    var a :| TrimmedFactorAt("", Trim(""), a);
  }

  /** A heredoc without embedded expressions: nothing when it is empty, the failure when its
      decoded content has a line that is the identifier, and otherwise one nowdoc literal whose
      body is that decoded content. */
  lemma HeredocWithoutExpressions(start: string, pieces: seq<Piece>)
    requires forall k | 0 <= k < |pieces| :: !pieces[k].Expr?
    ensures var id := IdentifierOrNull(GetIdentifier(start));
      var u := NowdocText(ContentText(pieces));
      HeredocToNowdocConcatenation(start, pieces) ==
        if ContentText(pieces) == [] then Success(None)
        else if id in Lines(u) then Failure(HeredocContainsDelimiterMessage)
        else Success(Some(NowdocLiteral(u, id)))
  {
    var c := ContentText(pieces);
    SegmentsWithoutExpressions(pieces, []);
    assert [] + c == c;
    if c == [] {
      assert HeredocSegments(pieces, []) == [];
      TrimEmpty();
    } else {
      SingleRun(start, pieces, c);
    }
  }

  /** A heredoc whose segments are one run. */
  lemma SingleRun(start: string, pieces: seq<Piece>, c: string)
    requires HeredocSegments(pieces, []) == [TextRun(c)]
    ensures var id := IdentifierOrNull(GetIdentifier(start));
      var u := NowdocText(c);
      HeredocToNowdocConcatenation(start, pieces) ==
        if id in Lines(u) then Failure(HeredocContainsDelimiterMessage)
        else Success(Some(NowdocLiteral(u, id)))
  {
    var id := IdentifierOrNull(GetIdentifier(start));
    var segs := [TextRun(c)];
    CollisionsFound(segs, id);
    if id !in Lines(NowdocText(c)) {
      assert !Collides(segs[0], id);
      SingleRunBlocks(id, c);
      TrimmedBlock(id, c);
    } else {
      assert Collides(segs[0], id);
    }
  }

  lemma SingleRunBlocks(id: string, c: string)
    ensures Join(MapSegments([TextRun(c)], BlockMapper(id), CleanupMapper), " . ") == NowdocBlock(id, c)
  {
    assert [TextRun(c)][1..] == [];
  }

  /** A heredoc of one run followed by one expression: the failure when the run collides, and
      otherwise the run's nowdoc, a newline, ` . ` and the cleaned-up expression, in this order. */
  lemma RunThenExpression(start: string, t: string, e: EmbeddedExpr)
    requires t != []
    requires var c := CleanupEmbeddedExpression(e); c != [] && !IsTrimmed(c[|c| - 1])
    ensures var id := IdentifierOrNull(GetIdentifier(start));
      HeredocToNowdocConcatenation(start, [Start, Text(t), Expr(e), End]) ==
        if id in Lines(NowdocText(t)) then Failure(HeredocContainsDelimiterMessage)
        else Success(Some(NowdocLiteral(NowdocText(t), id) + "\n . " + CleanupEmbeddedExpression(e)))
  {
    var id := IdentifierOrNull(GetIdentifier(start));
    var segs := [TextRun(t), ExprSegment(e)];
    RunThenExpressionSegments(t, e);
    CollisionsFound(segs, id);
    assert HasCollision(segs, id) <==> Collides(segs[0], id) by {
      assert !Collides(segs[1], id);
    }
    if id !in Lines(NowdocText(t)) {
      var joined := RunThenExpressionJoined(id, t, e);
      TrimUntrimmed(joined);
    }
  }

  lemma RunThenExpressionSegments(t: string, e: EmbeddedExpr)
    requires t != []
    ensures HeredocSegments([Start, Text(t), Expr(e), End], []) == [TextRun(t), ExprSegment(e)]
  {
    var pieces := [Start, Text(t), Expr(e), End];
    assert pieces[1..] == [Text(t), Expr(e), End];
    assert [Text(t), Expr(e), End][1..] == [Expr(e), End];
    assert [Expr(e), End][1..] == [End];
    assert [End][1..] == [];
    assert [] + t == t;
    calc {
      HeredocSegments(pieces, []);
      HeredocSegments([Text(t), Expr(e), End], []);
      HeredocSegments([Expr(e), End], t);
      Flush(t) + [ExprSegment(e)] + HeredocSegments([End], []);
      { assert HeredocSegments([End], []) == HeredocSegments([], []) == []; }
      [TextRun(t), ExprSegment(e)];
    }
  }

  /** The second pass over one run and one expression, joined with ` . `. */
  lemma RunThenExpressionJoined(id: string, t: string, e: EmbeddedExpr) returns (joined: string)
    requires var c := CleanupEmbeddedExpression(e); c != [] && !IsTrimmed(c[|c| - 1])
    ensures joined == Join(MapSegments([TextRun(t), ExprSegment(e)], BlockMapper(id), CleanupMapper), " . ")
    ensures joined == NowdocLiteral(NowdocText(t), id) + "\n . " + CleanupEmbeddedExpression(e)
    ensures joined != [] && !IsTrimmed(joined[0]) && !IsTrimmed(joined[|joined| - 1])
  {
    var segs := [TextRun(t), ExprSegment(e)];
    var b := NowdocBlock(id, t);
    var c := CleanupEmbeddedExpression(e);
    assert MapSegments(segs, BlockMapper(id), CleanupMapper) == [b, c] by {
      assert segs[1..] == [ExprSegment(e)] && [ExprSegment(e)][1..] == [];
      assert MapSegments([ExprSegment(e)], BlockMapper(id), CleanupMapper) == [c];
    }
    joined := b + " . " + c;
    assert Join([b, c], " . ") == joined by {
      assert [b, c][1..] == [c];
    }
    assert joined[0] == '<' && joined[|joined| - 1] == c[|c| - 1];
  }

  // ---- double-quoted to single-quoted, with escaping ----

  /** The literal is interpolated when its first child is the opening quote token. */
  predicate IsInterpolated(children: seq<QuotedPiece>) {
    children != [] && children[0].OpenQuote?
  }

  /** A fragment decoded and written as a single-quoted literal, which denotes the decoded text
      when no backslash of it is followed by another. */
  function FragmentLiteral(t: string): (r: Option<string>)
    ensures r.Some? && |r.value| >= 2 && r.value[0] == SingleQuote && r.value[|r.value| - 1] == SingleQuote
    ensures r.Some? && |r.value| >= 2 && (NoDoubledBackslash(UnescapeDoubleQuoted(t)) ==>
      UnescapeSingleQuoted(QuotedContent(r.value)) == UnescapeDoubleQuoted(t))
  {
    Some(SingleQuotedLiteralFromContent(UnescapeDoubleQuoted(t)))
  }

  /** `convertPhpDoubleQuotedStringToSingleQuotedStringsAndVariablesConcatenation`, `literal`
      being the text of the whole literal: an interpolated literal gives its operands joined by
      ` . `, or nothing when it has too few pieces or that is empty; a plain literal gives the
      single-quoted literal of its decoded content, which denotes the same text as long as no
      backslash of that text is followed by another. */
  function DoubleQuotedToSingleQuoted(children: seq<QuotedPiece>, literal: string): (r: Option<string>)
    requires |literal| >= 2
    ensures IsInterpolated(children) && |children| <= 1 ==> r.None?
    ensures r.Some? ==> r.value != []
    ensures !IsInterpolated(children) ==>
      (r.Some? && |r.value| >= 2 && r.value[0] == SingleQuote && r.value[|r.value| - 1] == SingleQuote
       && (NoDoubledBackslash(UnescapeDoubleQuoted(QuotedContent(literal))) ==>
             UnescapeSingleQuoted(QuotedContent(r.value)) == UnescapeDoubleQuoted(QuotedContent(literal))))
  {
    if IsInterpolated(children) then
      if |children| <= 1 then None
      else
        var joined := Join(MapQuotedPieces(children, FragmentLiteral, CleanupMapper), " . ");
        if joined == [] then None else Some(joined)
    else Some(SingleQuotedLiteralFromContent(UnescapeDoubleQuoted(QuotedContent(literal))))
  }

  /** The intention's conversion, with the loop over the pieces of an interpolated literal. */
  method ConvertDoubleQuotedToSingleQuoted(children: seq<QuotedPiece>, literal: string) returns (r: Option<string>)
    requires |literal| >= 2
    ensures r == DoubleQuotedToSingleQuoted(children, literal)
  {
    if children != [] && children[0].OpenQuote? {
      var mapped := MapDoubleQuotedComplexContent(children, FragmentLiteral, CleanupMapper);
      if mapped.None? {
        return None;
      }
      var joined := Join(mapped.value, " . ");
      if joined == [] {
        return None;
      }
      return Some(joined);
    }
    var content := literal[1..|literal| - 1];
    return Some(SingleQuotedLiteralFromContent(UnescapeDoubleQuoted(content)));
  }

  /** What one piece between the quotes becomes. */
  function SingleQuotedOperand(piece: QuotedPiece): string {
    match piece
    case Fragment(t) => SingleQuotedLiteralFromContent(UnescapeDoubleQuoted(t))
    case Embedded(e) => CleanupEmbeddedExpression(e)
    case _ => []
  }

  /** Between the quotes every piece gives one operand, in order: a fragment a single-quoted
      literal of its decoded text, an expression its cleaned-up text. */
  lemma SingleQuotedOperandsInOrder(body: seq<QuotedPiece>)
    requires forall k | 0 <= k < |body| :: !body[k].OpenQuote? && !body[k].CloseQuote?
    ensures var ops := MapQuotedPieces([OpenQuote] + body + [CloseQuote], FragmentLiteral, CleanupMapper);
      |ops| == |body| && forall k | 0 <= k < |body| :: ops[k] == SingleQuotedOperand(body[k])
  {
    QuotesAreSkipped(body, FragmentLiteral, CleanupMapper);
    assert forall k | 0 <= k < |body| :: QuotedEmitted(body[k], FragmentLiteral, CleanupMapper) == [SingleQuotedOperand(body[k])];
    QuotedPiecesInOrder(body, FragmentLiteral, CleanupMapper);
  }

  /** An interpolated literal with a fragment among its pieces always gives the join of its
      operands. */
  lemma InterpolatedWithFragment(body: seq<QuotedPiece>, literal: string, j: nat)
    requires |literal| >= 2
    requires forall k | 0 <= k < |body| :: !body[k].OpenQuote? && !body[k].CloseQuote?
    requires j < |body| && body[j].Fragment?
    ensures var ops := MapQuotedPieces([OpenQuote] + body + [CloseQuote], FragmentLiteral, CleanupMapper);
      DoubleQuotedToSingleQuoted([OpenQuote] + body + [CloseQuote], literal) == Some(Join(ops, " . "))
  {
    var children := [OpenQuote] + body + [CloseQuote];
    var ops := MapQuotedPieces(children, FragmentLiteral, CleanupMapper);
    SingleQuotedOperandsInOrder(body);
    assert |ops[j]| >= 2;
    JoinKeepsItemChars(ops, " . ", j, 0);
    assert children[0] == OpenQuote;
  }

  // ---- plain heredoc and nowdoc swaps ----

  /** The heredoc-to-nowdoc intention's `replaceAll`: each pair of backslashes, left to right,
      becomes one. */
  function CollapseBackslashes(s: string): (r: string)
    ensures |r| == |s| - PairCount(s, Backslash, Backslash)
    ensures Backslash !in s ==> r == s
  {
    ReplacePairLength(s, Backslash, Backslash, Backslash);
    ReplacePairAbsent(s, Backslash, Backslash, [Backslash]);
    ReplacePair(s, Backslash, Backslash, [Backslash])
  }

  /** The nowdoc-to-heredoc intention's `replaceAll`: every backslash is doubled. */
  function DoubleBackslashes(s: string): (r: string)
    ensures |r| == |s| + Count(s, Backslash)
    ensures Backslash !in s ==> r == s
  {
    ReplaceCharLength(s, Backslash, [Backslash, Backslash]);
    ReplaceChar(s, Backslash, [Backslash, Backslash])
  }

  /** `convertPhpHeredocToNowdoc`: the heredoc's content as written, with doubled backslashes
      collapsed, as the body of a nowdoc with the heredoc's identifier. */
  function HeredocToNowdoc(start: string, pieces: seq<Piece>): (lit: string)
    ensures var id := IdentifierOrNull(GetIdentifier(start));
      Lines(lit) == [NowdocOpening(id)] + Lines(CollapseBackslashes(ContentText(pieces))) + [id]
  {
    var id := IdentifierOrNull(GetIdentifier(start));
    assert forall i | 0 <= i < |id| :: IsIdentifierChar(id[i]);
    assert '\n' !in id by {
      forall i | 0 <= i < |id| ensures id[i] != '\n' {
        IdentifierCharsArePrintable(id[i]);
      }
    }
    NowdocLiteral(CollapseBackslashes(HeredocContent(pieces)), id)
  }

  /** `convertPhpNowdocToHeredoc`: the nowdoc's content with every backslash doubled, as the
      body of a heredoc with the nowdoc's identifier. */
  function NowdocToHeredoc(start: string, content: string): (lit: string)
    ensures var id := IdentifierOrNull(GetIdentifier(start));
      Lines(lit) == [HeredocOpening(id)] + Lines(DoubleBackslashes(content)) + [id]
  {
    var id := IdentifierOrNull(GetIdentifier(start));
    assert forall i | 0 <= i < |id| :: IsIdentifierChar(id[i]);
    assert '\n' !in id by {
      forall i | 0 <= i < |id| ensures id[i] != '\n' {
        IdentifierCharsArePrintable(id[i]);
      }
    }
    HeredocLiteral(DoubleBackslashes(content), id)
  }

  /** Collapsing undoes doubling. */
  lemma {:induction false} CollapseUndoesDoubling(s: string)
    ensures CollapseBackslashes(DoubleBackslashes(s)) == s
    decreases |s|
  {
    if s != [] {
      CollapseUndoesDoubling(s[1..]);
      var w := DoubleBackslashes(s[1..]);
      assert s == [s[0]] + s[1..];
      if s[0] == Backslash {
        assert DoubleBackslashes(s) == [Backslash, Backslash] + w;
        ReplacePairHit(w, Backslash, Backslash, [Backslash]);
      } else {
        assert DoubleBackslashes(s) == [s[0]] + w;
        ReplacePairKeep(s[0], w, Backslash, Backslash, [Backslash]);
      }
    }
  }

  /** A heredoc body with every backslash doubled decodes to the original text. */
  lemma {:induction false} DoubledBackslashesDecode(s: string)
    ensures UnescapeHeredoc(DoubleBackslashes(s)) == s
    decreases |s|
  {
    if s != [] {
      DoubledBackslashesDecode(s[1..]);
      var w := DoubleBackslashes(s[1..]);
      assert s == [s[0]] + s[1..];
      if s[0] == Backslash {
        assert DoubleBackslashes(s) == [Backslash, Backslash] + w;
        DecodeFacts.DecodeEscapedChar(Backslash, w, false);
      } else {
        assert DoubleBackslashes(s) == [s[0]] + w;
        DecodeFacts.DecodeLiteral(s[0], w, false);
      }
    }
  }

  /** Swapping a nowdoc to a heredoc and back: a heredoc whose pieces hold the doubled content
      becomes the nowdoc of the original content. */
  lemma SwapsRoundTrip(start: string, content: string, pieces: seq<Piece>)
    requires ContentText(pieces) == DoubleBackslashes(content)
    ensures HeredocToNowdoc(start, pieces) == NowdocLiteral(content, IdentifierOrNull(GetIdentifier(start)))
  {
    CollapseUndoesDoubling(content);
  }
}
