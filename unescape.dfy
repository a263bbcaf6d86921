/** Decoding the content of PHP string literals into the text they denote: the
    double-quoted-like decoder shared by double-quoted strings and heredocs, and the
    single-quoted and nowdoc decoders. */
module Unescape {
  import opened PhpChars
  import opened StringOps
  import opened CharEnum

  /** Number of octal digits from index `i` of `s` an octal escape takes: at most three. */
  function OctalRunAt(s: string, i: nat): (k: nat)
    requires i <= |s|
    ensures k <= 3 && i + k <= |s|
    ensures forall j | i <= j < i + k :: IsOctalDigit(s[j])
    ensures k < 3 && i + k < |s| ==> !IsOctalDigit(s[i + k])
  {
    if i < |s| && IsOctalDigit(s[i]) then
      if i + 1 < |s| && IsOctalDigit(s[i + 1]) then
        if i + 2 < |s| && IsOctalDigit(s[i + 2]) then 3 else 2
      else 1
    else 0
  }

  /** Number of hexadecimal digits from index `i` of `s` a `\x` escape takes: at most two. */
  function HexRunAt(s: string, i: nat): (k: nat)
    requires i <= |s|
    ensures k <= 2 && i + k <= |s|
    ensures forall j | i <= j < i + k :: IsHexDigit(s[j])
    ensures k < 2 && i + k < |s| ==> !IsHexDigit(s[i + k])
  {
    if i < |s| && IsHexDigit(s[i]) then
      if i + 1 < |s| && IsHexDigit(s[i + 1]) then 2 else 1
    else 0
  }

  /** What a backslash followed by `c` (neither an octal digit nor `x`) stands for. A `\"`
      stands for a quote only where the double quote is escapable (double-quoted strings); any
      other unknown sequence keeps its backslash. */
  function SingleCharEscape(c: char, doubleQuoteIsEscaped: bool): (r: string)
    ensures 1 <= |r| <= 2
    ensures |r| == 2 <==> (c == DoubleQuote && !doubleQuoteIsEscaped) || !IsSingleCharEscape(c)
    ensures |r| == 2 ==> r == [Backslash, c]
  {
    match c
    case 'n' => [Newline]
    case 'r' => [CarriageReturn]
    case 't' => [Tab]
    case 'v' => [VerticalTab]
    case 'e' => [EscapeChar]
    case 'f' => [FormFeed]
    case '\\' => [c]
    case '$' => [c]
    case '"' => if doubleQuoteIsEscaped then [c] else [Backslash, c]
    case _ => [Backslash, c]
  }

  /** The characters that, after a backslash, form a single-character escape. */
  predicate IsSingleCharEscape(c: char) {
    c == 'n' || c == 'r' || c == 't' || c == 'v' || c == 'e' || c == 'f' || c == Backslash || c == Dollar
    || c == DoubleQuote
  }

  /** One step of decoding: the text the sequence starting at index `p` stands for, and the
      index where the next sequence starts. */
  datatype Step = Step(piece: string, next: nat)

  /** The sequence at index `p` of double-quoted-like content: an octal escape of one to three
      digits, a hexadecimal escape of one or two digits, a single-character escape; `\x` without
      a hexadecimal digit, an unknown sequence and a trailing lone backslash are kept as written. */
  function DecodeStep(s: string, p: nat, doubleQuoteIsEscaped: bool): (t: Step)
    requires p < |s|
    ensures p < t.next <= |s|
    ensures 1 <= |t.piece| <= t.next - p
  {
    if s[p] != Backslash || p + 1 == |s| then Step([s[p]], p + 1)
    else if IsOctalDigit(s[p + 1]) then
      var k := OctalRunAt(s, p + 1);
      Step([OctalEscapeChar(s[p + 1..p + 1 + k])], p + 1 + k)
    else if s[p + 1] == 'x' && p + 2 < |s| && IsHexDigit(s[p + 2]) then
      var k := HexRunAt(s, p + 2);
      Step([HexEscapeChar(s[p + 2..p + 2 + k])], p + 2 + k)
    else if s[p + 1] == 'x' then Step([Backslash, 'x'], p + 2)
    else Step(SingleCharEscape(s[p + 1], doubleQuoteIsEscaped), p + 2)
  }

  /** The text denoted by the content `s` of a double-quoted string (`doubleQuoteIsEscaped`) or
      of a heredoc (not): the sequences of `s`, decoded from left to right. */
  function UnescapeDoubleQuotedLike(s: string, doubleQuoteIsEscaped: bool): (r: string)
    ensures |r| <= |s|
    decreases |s|
  {
    if s == [] then []
    else
      var t := DecodeStep(s, 0, doubleQuoteIsEscaped);
      t.piece + UnescapeDoubleQuotedLike(s[t.next..], doubleQuoteIsEscaped)
  }

  /** Content without a backslash denotes itself. */
  lemma {:induction false} DecodeWithoutBackslash(s: string, f: bool)
    ensures Backslash !in s ==> UnescapeDoubleQuotedLike(s, f) == s
    decreases |s|
  {
    if s != [] && Backslash !in s {
      assert s[0] != Backslash && Backslash !in s[1..];
      assert DecodeStep(s, 0, f) == Step([s[0]], 1);
      DecodeWithoutBackslash(s[1..], f);
    }
  }

  /** `unescapePhpDoubleQuotedStringContent`: decoding where `\"` stands for a quote. The
      decoded text is never longer, and text without a backslash is its own decoding. */
  function UnescapeDoubleQuoted(s: string): (r: string)
    ensures |r| <= |s|
    ensures Backslash !in s ==> r == s
  {
    DecodeWithoutBackslash(s, true);
    UnescapeDoubleQuotedLike(s, true)
  }

  /** `unescapePhpHeredocContent`: decoding where `\"` is kept as written. The decoded text is
      never longer, and text without a backslash is its own decoding. */
  function UnescapeHeredoc(s: string): (r: string)
    ensures |r| <= |s|
    ensures Backslash !in s ==> r == s
  {
    DecodeWithoutBackslash(s, false);
    UnescapeDoubleQuotedLike(s, false)
  }

  /** Nowdoc content is taken literally. */
  function UnescapeNowdoc(s: string): (r: string)
    ensures r == s
  {
    s
  }

  /** Single-quoted content: every `\\` becomes `\`, then every `\'` of the result becomes `'`
      (two successive literal replacements). */
  function UnescapeSingleQuoted(s: string): (r: string)
    ensures |r| <= |s|
    ensures Backslash !in s ==> r == s
  {
    var once := ReplacePair(s, Backslash, Backslash, [Backslash]);
    ReplacePairLength(s, Backslash, Backslash, Backslash);
    ReplacePairLength(once, Backslash, SingleQuote, SingleQuote);
    ReplacePairAbsent(s, Backslash, Backslash, [Backslash]);
    ReplacePairAbsent(once, Backslash, SingleQuote, [SingleQuote]);
    ReplacePair(once, Backslash, SingleQuote, [SingleQuote])
  }

  lemma SuffixSlice(s: string, p: nat, a: nat, b: nat)
    requires p <= |s| && a <= b <= |s| - p
    ensures s[p..][a..b] == s[p + a..p + b]
  {
  }

  /** Decoding from index `p` looks at that index and after it only. */
  lemma StepShift(s: string, p: nat, f: bool)
    requires p < |s|
    ensures DecodeStep(s[p..], 0, f).piece == DecodeStep(s, p, f).piece
    ensures DecodeStep(s[p..], 0, f).next + p == DecodeStep(s, p, f).next
  {
    var t := s[p..];
    assert forall j | 0 <= j < |t| :: t[j] == s[p + j];
    if t[0] == Backslash && 1 < |t| {
      if IsOctalDigit(t[1]) {
        var k := OctalRunAt(t, 1);
        assert OctalRunAt(s, p + 1) == k;
        SuffixSlice(s, p, 1, 1 + k);
      } else if t[1] == 'x' && 2 < |t| && IsHexDigit(t[2]) {
        var k := HexRunAt(t, 2);
        assert HexRunAt(s, p + 2) == k;
        SuffixSlice(s, p, 2, 2 + k);
      }
    }
  }

  /** The text from index `p` decodes to the step at `p` followed by the text after it. */
  lemma UnfoldAt(s: string, p: nat, f: bool)
    requires p < |s|
    ensures var t := DecodeStep(s, p, f);
      UnescapeDoubleQuotedLike(s[p..], f) == t.piece + UnescapeDoubleQuotedLike(s[t.next..], f)
  {
    StepShift(s, p, f);
    var n := DecodeStep(s, p, f).next;
    assert s[p..][n - p..] == s[n..];
  }

  /** Reads the rest of an octal escape whose first digit `first` was just taken: up to two
      more octal digits. Returns the digits and the last character taken, which is re-processed
      by the caller when it is not a digit. */
  method ReadOctalCode(e: CharEnumeration, ghost s: string, first: char)
    returns (octalCode: string, c: char)
    requires e.Valid() && e.charArray[..] == s
    requires 1 <= e.pointer && first == s[e.pointer - 1] && IsOctalDigit(first)
    modifies e`pointer
    ensures e.Valid()
    ensures var p0 := old(e.pointer) - 1; var k := OctalRunAt(s, p0);
      octalCode == s[p0..p0 + k]
      && (if IsOctalDigit(c) then e.pointer == p0 + k else e.pointer == p0 + k + 1)
      && c == s[e.pointer - 1]
  {
    c := first;
    octalCode := [c];
    var more := e.HasMoreElements();
    if more {
      var next := e.NextElement();
      c := next.value;
      if IsOctalDigit(c) {
        octalCode := octalCode + [c];
        more := e.HasMoreElements();
        if more {
          next := e.NextElement();
          c := next.value;
          if IsOctalDigit(c) {
            octalCode := octalCode + [c];
          }
        }
      }
    }
  }

  /** Reads the rest of a hexadecimal escape whose first digit `first` was just taken: at most
      one more hexadecimal digit. */
  method ReadHexCode(e: CharEnumeration, ghost s: string, first: char)
    returns (hexCode: string, c: char)
    requires e.Valid() && e.charArray[..] == s
    requires 1 <= e.pointer && first == s[e.pointer - 1] && IsHexDigit(first)
    modifies e`pointer
    ensures e.Valid()
    ensures var p0 := old(e.pointer) - 1; var k := HexRunAt(s, p0);
      hexCode == s[p0..p0 + k]
      && (if IsHexDigit(c) then e.pointer == p0 + k else e.pointer == p0 + k + 1)
      && c == s[e.pointer - 1]
  {
    c := first;
    hexCode := [c];
    var more := e.HasMoreElements();
    if more {
      var next := e.NextElement();
      c := next.value;
      if IsHexDigit(c) {
        hexCode := hexCode + [c];
      }
    }
  }

  /** The octal case of the decoder loop: the backslash at `p` is followed by the octal digit
      just read. When the last character read is not a digit, `reprocess` asks the loop to
      handle it next (the source's `continue`). */
  method DecodeOctalEscape(e: CharEnumeration, ghost s: string, ghost p: nat, first: char, ghost f: bool)
    returns (piece: string, c: char, reprocess: bool, ghost q: nat)
    requires e.Valid() && e.charArray[..] == s
    requires e.pointer == p + 2 <= |s| && s[p] == Backslash && first == s[p + 1] && IsOctalDigit(first)
    modifies e`pointer
    ensures e.Valid()
    ensures Step(piece, q) == DecodeStep(s, p, f)
    ensures e.pointer == (if reprocess then q + 1 else q) && (reprocess ==> c == s[q])
  {
    var octalCode;
    octalCode, c := ReadOctalCode(e, s, first);
    piece := [OctalEscapeChar(octalCode)];
    reprocess := !IsOctalDigit(c);
    q := p + 1 + OctalRunAt(s, p + 1);
  }

  /** The hexadecimal case of the decoder loop: the backslash at `p` is followed by the `x` just
      read. Without a hexadecimal digit after it, both characters are kept. */
  method DecodeHexEscape(e: CharEnumeration, ghost s: string, ghost p: nat, ghost f: bool)
    returns (piece: string, c: char, reprocess: bool, ghost q: nat)
    requires e.Valid() && e.charArray[..] == s
    requires e.pointer == p + 2 <= |s| && s[p] == Backslash && s[p + 1] == 'x'
    modifies e`pointer
    ensures e.Valid()
    ensures Step(piece, q) == DecodeStep(s, p, f)
    ensures e.pointer == (if reprocess then q + 1 else q) && (reprocess ==> c == s[q])
  {
    c := 'x';
    var more := e.HasMoreElements();
    if more {
      var next := e.NextElement();
      c := next.value;
    }
    if more && IsHexDigit(c) {
      var hexCode;
      hexCode, c := ReadHexCode(e, s, c);
      piece := [HexEscapeChar(hexCode)];
      reprocess := !IsHexDigit(c);
      q := p + 2 + HexRunAt(s, p + 2);
    } else {
      piece := [Backslash, 'x'];
      reprocess := more;
      q := p + 2;
    }
  }

  /** The part of the decoder loop that handles a backslash at index `p` followed by at least
      one more character. */
  method DecodeEscapeSequence(e: CharEnumeration, ghost s: string, ghost p: nat, f: bool)
    returns (piece: string, c: char, reprocess: bool, ghost q: nat)
    requires e.Valid() && e.charArray[..] == s
    requires e.pointer == p + 1 < |s| && s[p] == Backslash
    modifies e`pointer
    ensures e.Valid()
    ensures Step(piece, q) == DecodeStep(s, p, f)
    ensures e.pointer == (if reprocess then q + 1 else q) && (reprocess ==> c == s[q])
  {
    var next := e.NextElement();
    c := next.value;
    if IsOctalDigit(c) {
      piece, c, reprocess, q := DecodeOctalEscape(e, s, p, c, f);
    } else if c == 'x' {
      piece, c, reprocess, q := DecodeHexEscape(e, s, p, f);
    } else {
      piece := SingleCharEscape(c, f);
      reprocess := false;
      q := p + 2;
    }
  }

  /** The body of the decoder loop for the character `c0` at index `p`: an escape sequence when
      it is a backslash with more text after it, a literal character otherwise. */
  method DecodeCurrent(e: CharEnumeration, ghost s: string, ghost p: nat, c0: char, f: bool)
    returns (piece: string, c: char, reprocess: bool, ghost q: nat)
    requires e.Valid() && e.charArray[..] == s
    requires e.pointer == p + 1 <= |s| && c0 == s[p]
    modifies e`pointer
    ensures e.Valid()
    ensures Step(piece, q) == DecodeStep(s, p, f)
    ensures e.pointer == (if reprocess then q + 1 else q) && (reprocess ==> c == s[q])
  {
    c := c0;
    var more := e.HasMoreElements();
    if c == Backslash && more {
      piece, c, reprocess, q := DecodeEscapeSequence(e, s, p, f);
    } else {
      piece := [c];
      reprocess := false;
      q := p + 1;
    }
  }

  /** Decoding one more step keeps the decoder's running output `out` consistent with the
      whole. */
  lemma Accumulate(s: string, out: string, p: nat, piece: string, q: nat, f: bool)
    requires p < |s| && Step(piece, q) == DecodeStep(s, p, f)
    requires out + UnescapeDoubleQuotedLike(s[p..], f) == UnescapeDoubleQuotedLike(s, f)
    ensures p < q <= |s|
    ensures (out + piece) + UnescapeDoubleQuotedLike(s[q..], f) == UnescapeDoubleQuotedLike(s, f)
  {
    UnfoldAt(s, p, f);
  }

  /** The decoder as the source runs it: one pass over a `CharEnumeration` of the content, with
      a one-character look-back, re-processing the character that ended a numeric escape. */
  method UnescapeDoubleQuotedLikeContent(escapedContent: string, doubleQuoteIsEscaped: bool)
    returns (unescaped: string)
    ensures unescaped == UnescapeDoubleQuotedLike(escapedContent, doubleQuoteIsEscaped)
  {
    var s := escapedContent;
    var chars := new char[|s|](i requires 0 <= i < |s| => s[i]);
    var e := new CharEnumeration(chars);
    unescaped := "";
    var more := e.HasMoreElements();
    if !more {
      return;
    }
    var next := e.NextElement();
    var c := next.value;
    var endOfString := false;
    ghost var pos: nat := 0;
    while !endOfString
      invariant e.charArray[..] == s && e.Valid()
      invariant !endOfString ==> pos < |s| && e.pointer == pos + 1 && c == s[pos]
      invariant !endOfString ==>
        unescaped + UnescapeDoubleQuotedLike(s[pos..], doubleQuoteIsEscaped)
        == UnescapeDoubleQuotedLike(s, doubleQuoteIsEscaped)
      invariant endOfString ==> unescaped == UnescapeDoubleQuotedLike(s, doubleQuoteIsEscaped)
      decreases |s| - e.pointer, !endOfString
    {
      var piece, reprocess;
      ghost var q;
      piece, c, reprocess, q := DecodeCurrent(e, s, pos, c, doubleQuoteIsEscaped);
      Accumulate(s, unescaped, pos, piece, q, doubleQuoteIsEscaped);
      unescaped := unescaped + piece;
      if reprocess {
        pos := q;
        continue;
      }
      more := e.HasMoreElements();
      if more {
        next := e.NextElement();
        c := next.value;
        pos := q;
      } else {
        endOfString := true;
        assert s[q..] == [];
      }
    }
  }
}
