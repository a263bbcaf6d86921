/** Splitting an interpolated literal into its text fragments and its embedded expressions, as
    the lexer's pieces arrive, and the clean-up that turns an embedded expression into code that
    can stand outside the string. */
module Segmenter {
  import opened Wrappers
  import opened PhpChars
  import opened StringOps

  // ---- embedded expressions ----

  /** How the index of an unbraced array access is tokenised: one identifier token, one other
      token (a number, a variable), or several tokens. */
  datatype IndexKind = IdentifierToken | OtherToken | Compound

  /** An expression embedded in an interpolated string, by the shape that matters to the
      clean-up: wrapped in braces, an array access without braces, or anything else (a variable,
      a property access). */
  datatype EmbeddedExpr =
    | Braced(inner: string)
    | ArrayAccess(name: string, index: string, indexKind: IndexKind)
    | Plain(text: string)

  /** The text of the expression as it is written inside the string. */
  function ExprText(e: EmbeddedExpr): string {
    match e
    case Braced(inner) => "{" + inner + "}"
    case ArrayAccess(name, index, _) => name + "[" + index + "]"
    case Plain(text) => text
  }

  /** The pattern `0[0-9]+` over the whole text: a number PHP reads as an octal literal. */
  predicate IsOctalIntegerText(s: string) {
    |s| >= 2 && s[0] == '0' && forall i | 1 <= i < |s| :: IsDecimalDigit(s[i])
  }

  /** Whether the clean-up quotes the index of an unbraced array access: a single token that is
      an identifier, or that reads as an octal number. */
  predicate QuotesIndex(index: string, kind: IndexKind) {
    kind != Compound && (kind == IdentifierToken || IsOctalIntegerText(index))
  }

  /** `cleanupStringEmbeddedExpression`: a braced expression loses its braces; an unbraced array
      access has an unquoted key quoted; anything else is kept. */
  function CleanupEmbeddedExpression(e: EmbeddedExpr): (r: string)
    ensures e.Braced? ==> r == e.inner && |r| == |ExprText(e)| - 2
    ensures e.ArrayAccess? && QuotesIndex(e.index, e.indexKind) ==>
      r == ExprText(ArrayAccess(e.name, [SingleQuote] + e.index + [SingleQuote], e.indexKind))
    ensures e.ArrayAccess? && !QuotesIndex(e.index, e.indexKind) ==> r == ExprText(e)
    ensures e.Plain? ==> r == ExprText(e)
  {
    match e
    case Braced(_) =>
      var text := ExprText(e);
      text[1..|text| - 1]
    case ArrayAccess(name, index, kind) =>
      var key := if QuotesIndex(index, kind) then [SingleQuote] + index + [SingleQuote] else index;
      name + "[" + key + "]"
    case Plain(text) => text
  }

  /** A single-token index `0` or `12` is not an octal number, so it stays unquoted; `012` is
      quoted. */
  lemma CleanupKeepsDecimalIndex(name: string)
    ensures CleanupEmbeddedExpression(ArrayAccess(name, "0", OtherToken)) == name + "[0]"
    ensures CleanupEmbeddedExpression(ArrayAccess(name, "12", OtherToken)) == name + "[12]"
    ensures CleanupEmbeddedExpression(ArrayAccess(name, "012", OtherToken)) == name + "['012']"
  {
    assert !IsOctalIntegerText("12") by {
      assert "12"[0] == '1';
    }
    assert IsOctalIntegerText("012") by {
      assert "012"[1] == '1' && "012"[2] == '2';
    }
  }

  // ---- heredoc pieces ----

  /** The lexer's pieces of a heredoc: its start and end delimiters, runs of plain contents,
      escape sequences (which the lexer gives separately) and embedded expressions. */
  datatype Piece =
    | Start
    | End
    | Text(text: string)
    | Escape(text: string)
    | Expr(expr: EmbeddedExpr)

  /** What the mappers are applied to: a maximal run of text, or an expression. */
  datatype Segment = TextRun(text: string) | ExprSegment(expr: EmbeddedExpr)

  /** The pending text, as a segment if there is any. */
  function Flush(buffer: string): (segs: seq<Segment>)
    ensures buffer == [] <==> segs == []
  {
    if buffer == [] then [] else [TextRun(buffer)]
  }

  /** The segments of the pieces, with `buffer` the text gathered before them: delimiters are
      skipped, text is gathered, and an expression ends the gathered text. */
  function HeredocSegments(pieces: seq<Piece>, buffer: string): seq<Segment>
    decreases |pieces|
  {
    if pieces == [] then Flush(buffer)
    else
      match pieces[0]
      case Start => HeredocSegments(pieces[1..], buffer)
      case End => HeredocSegments(pieces[1..], buffer)
      case Text(t) => HeredocSegments(pieces[1..], buffer + t)
      case Escape(t) => HeredocSegments(pieces[1..], buffer + t)
      case Expr(e) => Flush(buffer) + [ExprSegment(e)] + HeredocSegments(pieces[1..], [])
  }

  function Keep(r: Option<string>): seq<string> {
    match r
    case Some(v) => [v]
    case None => []
  }

  /** The mapper results of the segments in order, without the missing ones. */
  function MapSegments(segs: seq<Segment>, textMapper: string -> Option<string>,
                       exprMapper: EmbeddedExpr -> Option<string>): seq<string>
  {
    if segs == [] then []
    else
      Keep(match segs[0] case TextRun(t) => textMapper(t) case ExprSegment(e) => exprMapper(e))
      + MapSegments(segs[1..], textMapper, exprMapper)
  }

  lemma {:induction false} MapSegmentsAppend(a: seq<Segment>, b: seq<Segment>,
                                             tm: string -> Option<string>, em: EmbeddedExpr -> Option<string>)
    ensures MapSegments(a + b, tm, em) == MapSegments(a, tm, em) + MapSegments(b, tm, em)
  {
    if a == [] {
      assert a + b == b;
    } else {
      assert (a + b)[0] == a[0] && (a + b)[1..] == a[1..] + b;
      MapSegmentsAppend(a[1..], b, tm, em);
    }
  }

  /** One piece of the segmentation, from index `i` on. */
  lemma HeredocSegmentsStep(pieces: seq<Piece>, i: nat, buffer: string)
    requires i < |pieces|
    ensures pieces[i].Start? || pieces[i].End? ==>
      HeredocSegments(pieces[i..], buffer) == HeredocSegments(pieces[i + 1..], buffer)
    ensures pieces[i].Text? || pieces[i].Escape? ==>
      HeredocSegments(pieces[i..], buffer) == HeredocSegments(pieces[i + 1..], buffer + pieces[i].text)
    ensures pieces[i].Expr? ==>
      HeredocSegments(pieces[i..], buffer)
      == Flush(buffer) + [ExprSegment(pieces[i].expr)] + HeredocSegments(pieces[i + 1..], [])
  {
    assert pieces[i..][0] == pieces[i];
    assert pieces[i..][1..] == pieces[i + 1..];
  }

  /** The mappers applied to the pending text and adds its result, if any. */
  lemma FlushStep(buffer: string, tm: string -> Option<string>, em: EmbeddedExpr -> Option<string>)
    ensures MapSegments(Flush(buffer), tm, em) == (if buffer == [] then [] else Keep(tm(buffer)))
  {
    if buffer != [] {
      assert Flush(buffer)[1..] == [];
    }
  }

  lemma Associate(a: seq<string>, b: seq<string>, c: seq<string>)
    ensures (a + b) + c == a + (b + c)
  {
  }

  /** The text buffer after one piece. */
  function NextBuffer(buffer: string, piece: Piece): string {
    match piece
    case Start => buffer
    case End => buffer
    case Text(t) => buffer + t
    case Escape(t) => buffer + t
    case Expr(_) => []
  }

  /** The results added to the list at one piece: at an expression, the result for the pending
      text, if any, then the result for the expression. */
  function Emitted(buffer: string, piece: Piece, tm: string -> Option<string>,
                   em: EmbeddedExpr -> Option<string>): seq<string> {
    if piece.Expr? then (if buffer == [] then [] else Keep(tm(buffer))) + Keep(em(piece.expr)) else []
  }

  lemma HeredocAdvance(pieces: seq<Piece>, i: nat, buffer: string, tm: string -> Option<string>,
                       em: EmbeddedExpr -> Option<string>)
    requires i < |pieces|
    ensures MapSegments(HeredocSegments(pieces[i..], buffer), tm, em)
         == Emitted(buffer, pieces[i], tm, em) + MapSegments(HeredocSegments(pieces[i + 1..], NextBuffer(buffer, pieces[i])), tm, em)
  {
    HeredocSegmentsStep(pieces, i, buffer);
    if pieces[i].Expr? {
      var e := pieces[i].expr;
      var rest := HeredocSegments(pieces[i + 1..], []);
      MapSegmentsAppend(Flush(buffer) + [ExprSegment(e)], rest, tm, em);
      MapSegmentsAppend(Flush(buffer), [ExprSegment(e)], tm, em);
      FlushStep(buffer, tm, em);
      assert MapSegments([ExprSegment(e)], tm, em) == Keep(em(e)) by {
        assert [ExprSegment(e)][1..] == [];
      }
    }
  }

  /** `mapPhpHeredocContent`: the loop over the heredoc's pieces with a text buffer that is
      handed to the text mapper, when not empty, before each expression and at the end. */
  method MapHeredocContent(pieces: seq<Piece>, textMapper: string -> Option<string>,
                           exprMapper: EmbeddedExpr -> Option<string>)
    returns (mapped: seq<string>)
    ensures mapped == MapSegments(HeredocSegments(pieces, []), textMapper, exprMapper)
  {
    ghost var target := MapSegments(HeredocSegments(pieces, []), textMapper, exprMapper);
    var buffer := "";
    mapped := [];
    assert pieces[0..] == pieces;
    for i := 0 to |pieces|
      invariant mapped + MapSegments(HeredocSegments(pieces[i..], buffer), textMapper, exprMapper) == target
    {
      HeredocAdvance(pieces, i, buffer, textMapper, exprMapper);
      ghost var next := NextBuffer(buffer, pieces[i]);
      ghost var emitted := Emitted(buffer, pieces[i], textMapper, exprMapper);
      ghost var before := mapped;
      match pieces[i] {
        case Start =>
        case End =>
        case Text(t) =>
          buffer := buffer + t;
        case Escape(t) =>
          buffer := buffer + t;
        case Expr(e) =>
          ghost var flushed := if buffer == [] then [] else Keep(textMapper(buffer));
          if buffer != [] {
            var r := textMapper(buffer);
            if r.Some? {
              mapped := mapped + [r.value];
            }
          }
          assert mapped == before + flushed;
          buffer := [];
          var r := exprMapper(e);
          if r.Some? {
            mapped := mapped + [r.value];
          }
          assert mapped == (before + flushed) + Keep(exprMapper(e));
          Associate(before, flushed, Keep(exprMapper(e)));
      }
      assert mapped == before + emitted;
      assert buffer == next;
      ghost var later := MapSegments(HeredocSegments(pieces[i + 1..], next), textMapper, exprMapper);
      Associate(before, emitted, later);
    }
    assert pieces[|pieces|..] == [];
    FlushStep(buffer, textMapper, exprMapper);
    if buffer != [] {
      var r := textMapper(buffer);
      if r.Some? {
        mapped := mapped + [r.value];
      }
    }
  }

  // ---- what the segmentation promises ----

  /** No text segment is empty, and no two text segments are next to each other: adjacent text
      and escape pieces are always gathered into one. */
  ghost predicate WellSegmented(segs: seq<Segment>) {
    (forall k | 0 <= k < |segs| && segs[k].TextRun? :: segs[k].text != [])
    && (forall k | 0 <= k < |segs| - 1 :: !(segs[k].TextRun? && segs[k + 1].TextRun?))
  }

  lemma {:induction false} HeredocSegmentsWellFormed(pieces: seq<Piece>, buffer: string)
    ensures WellSegmented(HeredocSegments(pieces, buffer))
    decreases |pieces|
  {
    if pieces != [] {
      match pieces[0]
      case Start => HeredocSegmentsWellFormed(pieces[1..], buffer);
      case End => HeredocSegmentsWellFormed(pieces[1..], buffer);
      case Text(t) => HeredocSegmentsWellFormed(pieces[1..], buffer + t);
      case Escape(t) => HeredocSegmentsWellFormed(pieces[1..], buffer + t);
      case Expr(e) =>
        var rest := HeredocSegments(pieces[1..], []);
        HeredocSegmentsWellFormed(pieces[1..], []);
        var segs := Flush(buffer) + [ExprSegment(e)] + rest;
        var n := |Flush(buffer)|;
        assert segs[n] == ExprSegment(e);
        assert forall k | n + 1 <= k < |segs| :: segs[k] == rest[k - n - 1];
    }
  }

  /** The text of one piece as written; the delimiters count for nothing. */
  function PieceText(piece: Piece): string {
    match piece
    case Start => []
    case End => []
    case Text(t) => t
    case Escape(t) => t
    case Expr(e) => ExprText(e)
  }

  /** The text of the pieces other than the delimiters, in order, expressions as written. */
  function ContentText(pieces: seq<Piece>): string
    decreases |pieces|
  {
    if pieces == [] then [] else PieceText(pieces[0]) + ContentText(pieces[1..])
  }

  /** The embedded expressions of the pieces, in order. */
  function PieceExprs(pieces: seq<Piece>): seq<EmbeddedExpr>
    decreases |pieces|
  {
    if pieces == [] then [] else (if pieces[0].Expr? then [pieces[0].expr] else []) + PieceExprs(pieces[1..])
  }

  function SegmentExprs(segs: seq<Segment>): seq<EmbeddedExpr>
    decreases |segs|
  {
    if segs == [] then [] else (if segs[0].ExprSegment? then [segs[0].expr] else []) + SegmentExprs(segs[1..])
  }

  lemma {:induction false} SegmentExprsAppend(a: seq<Segment>, b: seq<Segment>)
    ensures SegmentExprs(a + b) == SegmentExprs(a) + SegmentExprs(b)
  {
    if a == [] {
      assert a + b == b;
    } else {
      assert (a + b)[0] == a[0] && (a + b)[1..] == a[1..] + b;
      SegmentExprsAppend(a[1..], b);
    }
  }

  /** The expressions reach the expression mapper once each and in their order. */
  lemma {:induction false} HeredocSegmentsKeepExprOrder(pieces: seq<Piece>, buffer: string)
    ensures SegmentExprs(HeredocSegments(pieces, buffer)) == PieceExprs(pieces)
    decreases |pieces|
  {
    if pieces == [] {
      assert SegmentExprs(Flush(buffer)) == [] by {
        if buffer != [] {
          assert Flush(buffer)[1..] == [];
        }
      }
    } else {
      match pieces[0]
      case Start => HeredocSegmentsKeepExprOrder(pieces[1..], buffer);
      case End => HeredocSegmentsKeepExprOrder(pieces[1..], buffer);
      case Text(t) => HeredocSegmentsKeepExprOrder(pieces[1..], buffer + t);
      case Escape(t) => HeredocSegmentsKeepExprOrder(pieces[1..], buffer + t);
      case Expr(e) =>
        var rest := HeredocSegments(pieces[1..], []);
        HeredocSegmentsKeepExprOrder(pieces[1..], []);
        SegmentExprsAppend(Flush(buffer) + [ExprSegment(e)], rest);
        SegmentExprsAppend(Flush(buffer), [ExprSegment(e)]);
        assert SegmentExprs(Flush(buffer)) == [] by {
          if buffer != [] {
            assert Flush(buffer)[1..] == [];
          }
        }
        assert SegmentExprs([ExprSegment(e)]) == [e] by {
          assert [ExprSegment(e)][1..] == [];
        }
    }
  }

  /** The text mapper of `getPhpHeredocContent` keeps the text; its expression mapper gives the
      expression as written. */
  function KeepText(t: string): Option<string> {
    Some(t)
  }

  function WrittenText(e: EmbeddedExpr): Option<string> {
    Some(ExprText(e))
  }

  lemma ConcatSingle(s: string)
    ensures Concat([s]) == s
  {
    assert [s][1..] == [];
  }

  /** One piece under the mappers that keep everything: the text added to the list, and then
      the text still gathered, are the gathered text before it and the piece's own text. */
  lemma EmittedText(buffer: string, piece: Piece)
    ensures Concat(Emitted(buffer, piece, KeepText, WrittenText)) + NextBuffer(buffer, piece)
         == buffer + PieceText(piece)
  {
    if piece.Expr? {
      var flushed := if buffer == [] then [] else [buffer];
      assert Emitted(buffer, piece, KeepText, WrittenText) == flushed + [ExprText(piece.expr)];
      ConcatAppend(flushed, [ExprText(piece.expr)]);
      ConcatSingle(ExprText(piece.expr));
      if buffer != [] {
        ConcatSingle(buffer);
      }
    }
  }

  lemma Rejoin(a: string, b: string, c: string, d: string, e: string)
    requires a + b == d + e
    ensures a + (b + c) == d + (e + c)
  {
    assert a + (b + c) == (a + b) + c;
  }

  /** With the mappers that keep everything, the gathered results, joined without separator,
      are the text of all pieces but the delimiters. */
  lemma {:induction false} HeredocSegmentsKeepText(pieces: seq<Piece>, buffer: string)
    ensures Concat(MapSegments(HeredocSegments(pieces, buffer), KeepText, WrittenText)) == buffer + ContentText(pieces)
    decreases |pieces|
  {
    if pieces == [] {
      FlushStep(buffer, KeepText, WrittenText);
      if buffer != [] {
        ConcatSingle(buffer);
      }
    } else {
      var next := NextBuffer(buffer, pieces[0]);
      var emitted := Emitted(buffer, pieces[0], KeepText, WrittenText);
      var later := MapSegments(HeredocSegments(pieces[1..], next), KeepText, WrittenText);
      assert pieces[0..] == pieces;
      HeredocAdvance(pieces, 0, buffer, KeepText, WrittenText);
      HeredocSegmentsKeepText(pieces[1..], next);
      EmittedText(buffer, pieces[0]);
      ConcatAppend(emitted, later);
      assert Concat(MapSegments(HeredocSegments(pieces, buffer), KeepText, WrittenText))
          == Concat(emitted) + Concat(later);
      assert ContentText(pieces) == PieceText(pieces[0]) + ContentText(pieces[1..]);
      Rejoin(Concat(emitted), next, ContentText(pieces[1..]), buffer, PieceText(pieces[0]));
    }
  }

  /** `getPhpHeredocContent`: the fragments kept by the segmentation, joined without
      separator, are the heredoc's content as written. */
  function HeredocContent(pieces: seq<Piece>): (content: string)
    ensures content == ContentText(pieces)
  {
    HeredocSegmentsKeepText(pieces, []);
    JoinWithoutSeparator(MapSegments(HeredocSegments(pieces, []), KeepText, WrittenText));
    Join(MapSegments(HeredocSegments(pieces, []), KeepText, WrittenText), "")
  }

  // ---- double-quoted pieces ----

  /** The lexer's pieces of a double-quoted literal: its delimiting quotes, literal fragments
      and embedded expressions. */
  datatype QuotedPiece = OpenQuote | CloseQuote | Fragment(text: string) | Embedded(expr: EmbeddedExpr)

  /** The mapper results of the pieces in order, delimiters skipped, missing results dropped. */
  function MapQuotedPieces(pieces: seq<QuotedPiece>, textMapper: string -> Option<string>,
                           exprMapper: EmbeddedExpr -> Option<string>): seq<string>
    decreases |pieces|
  {
    if pieces == [] then []
    else
      (match pieces[0]
       case OpenQuote => []
       case CloseQuote => []
       case Fragment(t) => Keep(textMapper(t))
       case Embedded(e) => Keep(exprMapper(e)))
      + MapQuotedPieces(pieces[1..], textMapper, exprMapper)
  }

  /** The mapping works piece by piece: mapping a concatenation concatenates the mappings. */
  lemma {:induction false} MapQuotedPiecesAppend(a: seq<QuotedPiece>, b: seq<QuotedPiece>,
                                                 tm: string -> Option<string>, em: EmbeddedExpr -> Option<string>)
    ensures MapQuotedPieces(a + b, tm, em) == MapQuotedPieces(a, tm, em) + MapQuotedPieces(b, tm, em)
  {
    if a == [] {
      assert a + b == b;
    } else {
      assert (a + b)[0] == a[0] && (a + b)[1..] == a[1..] + b;
      MapQuotedPiecesAppend(a[1..], b, tm, em);
    }
  }

  /** The delimiting quotes contribute nothing. */
  lemma QuotesAreSkipped(body: seq<QuotedPiece>, tm: string -> Option<string>, em: EmbeddedExpr -> Option<string>)
    ensures MapQuotedPieces([OpenQuote] + body + [CloseQuote], tm, em) == MapQuotedPieces(body, tm, em)
  {
    MapQuotedPiecesAppend([OpenQuote] + body, [CloseQuote], tm, em);
    MapQuotedPiecesAppend([OpenQuote], body, tm, em);
    assert [OpenQuote][1..] == [] && [CloseQuote][1..] == [];
  }

  /** The results one piece adds to the list. */
  function QuotedEmitted(piece: QuotedPiece, tm: string -> Option<string>,
                         em: EmbeddedExpr -> Option<string>): seq<string> {
    match piece
    case OpenQuote => []
    case CloseQuote => []
    case Fragment(t) => Keep(tm(t))
    case Embedded(e) => Keep(em(e))
  }

  lemma QuotedAdvance(pieces: seq<QuotedPiece>, i: nat, tm: string -> Option<string>,
                      em: EmbeddedExpr -> Option<string>)
    requires i < |pieces|
    ensures MapQuotedPieces(pieces[i..], tm, em) == QuotedEmitted(pieces[i], tm, em) + MapQuotedPieces(pieces[i + 1..], tm, em)
  {
    assert pieces[i..][0] == pieces[i] && pieces[i..][1..] == pieces[i + 1..];
  }

  /** With mappers that give one result for every piece, the list has one result per piece, in
      the order of the pieces. */
  lemma {:induction false} QuotedPiecesInOrder(body: seq<QuotedPiece>, tm: string -> Option<string>,
                                               em: EmbeddedExpr -> Option<string>)
    requires forall k | 0 <= k < |body| :: |QuotedEmitted(body[k], tm, em)| == 1
    ensures var m := MapQuotedPieces(body, tm, em);
      |m| == |body| && forall k | 0 <= k < |body| :: m[k] == QuotedEmitted(body[k], tm, em)[0]
    decreases |body|
  {
    if body != [] {
      var tail := body[1..];
      assert forall k | 0 <= k < |tail| :: tail[k] == body[k + 1];
      QuotedPiecesInOrder(tail, tm, em);
      QuotedAdvance(body, 0, tm, em);
      assert body[0..] == body;
    }
  }

  /** `mapPhpDoubleQuotedComplexStringContent`: nothing for a literal of at most one piece (it is
      not interpolated); otherwise the loop over its pieces. */
  method MapDoubleQuotedComplexContent(pieces: seq<QuotedPiece>, textMapper: string -> Option<string>,
                                       exprMapper: EmbeddedExpr -> Option<string>)
    returns (mapped: Option<seq<string>>)
    ensures |pieces| <= 1 <==> mapped.None?
    ensures mapped.Some? ==> mapped.value == MapQuotedPieces(pieces, textMapper, exprMapper)
  {
    if |pieces| <= 1 {
      return None;
    }
    ghost var target := MapQuotedPieces(pieces, textMapper, exprMapper);
    var list: seq<string> := [];
    assert pieces[0..] == pieces;
    for i := 0 to |pieces|
      invariant list + MapQuotedPieces(pieces[i..], textMapper, exprMapper) == target
    {
      QuotedAdvance(pieces, i, textMapper, exprMapper);
      ghost var before := list;
      ghost var emitted := QuotedEmitted(pieces[i], textMapper, exprMapper);
      match pieces[i] {
        case OpenQuote =>
        case CloseQuote =>
        case Fragment(t) =>
          var r := textMapper(t);
          if r.Some? {
            list := list + [r.value];
          }
        case Embedded(e) =>
          var r := exprMapper(e);
          if r.Some? {
            list := list + [r.value];
          }
      }
      assert list == before + emitted;
      Associate(before, emitted, MapQuotedPieces(pieces[i + 1..], textMapper, exprMapper));
    }
    assert pieces[|pieces|..] == [];
    return Some(list);
  }
}
