/** The Java and Commons Lang string operations the source composes: non-regular
    `String.replace`, `String.trim`, `StringUtils.join`, and the line structure that the
    multiline anchors `^` and `$` of `java.util.regex` observe (with `\n` as the only
    line terminator). */
module StringOps {

  /** Number of occurrences of `c` in `s`. */
  function Count(s: string, c: char): nat {
    if s == [] then 0 else (if s[0] == c then 1 else 0) + Count(s[1..], c)
  }

  /** `s.replace(c, r)` for a one-character target: every occurrence of `c` becomes `r`. */
  function ReplaceChar(s: string, c: char, r: string): (t: string)
    ensures c !in s ==> t == s
    ensures r == [c] ==> t == s
  {
    if s == [] then [] else (if s[0] == c then r else [s[0]]) + ReplaceChar(s[1..], c, r)
  }

  lemma {:induction false} ReplaceCharConcat(a: string, b: string, c: char, r: string)
    ensures ReplaceChar(a + b, c, r) == ReplaceChar(a, c, r) + ReplaceChar(b, c, r)
  {
    if a == [] {
      assert a + b == b;
    } else {
      assert (a + b)[0] == a[0];
      assert (a + b)[1..] == a[1..] + b;
      ReplaceCharConcat(a[1..], b, c, r);
    }
  }

  /** Replacing a character by two characters lengthens the text by one per occurrence. */
  lemma {:induction false} ReplaceCharLength(s: string, c: char, r: string)
    requires |r| == 2
    ensures |ReplaceChar(s, c, r)| == |s| + Count(s, c)
  {
    if s != [] {
      ReplaceCharLength(s[1..], c, r);
    }
  }

  /** `s.replace(ab, r)` for a two-character target `ab`: occurrences are replaced from left to
      right and never overlap. */
  function ReplacePair(s: string, a: char, b: char, r: string): string {
    if |s| >= 2 && s[0] == a && s[1] == b then r + ReplacePair(s[2..], a, b, r)
    else if s == [] then []
    else [s[0]] + ReplacePair(s[1..], a, b, r)
  }

  /** Without one of the two characters of the pair nothing is replaced. */
  lemma {:induction false} ReplacePairAbsent(s: string, a: char, b: char, r: string)
    ensures a !in s || b !in s ==> ReplacePair(s, a, b, r) == s
    decreases |s|
  {
    if s != [] && (a !in s || b !in s) {
      assert a !in s ==> a !in s[1..];
      assert b !in s ==> b !in s[1..];
      assert |s| >= 2 ==> s[0] in s && s[1] in s;
      ReplacePairAbsent(s[1..], a, b, r);
    }
  }

  /** Replacing a pair by at least two characters never shortens the text. */
  lemma {:induction false} ReplacePairGrows(s: string, a: char, b: char, r: string)
    requires |r| >= 2
    ensures |ReplacePair(s, a, b, r)| >= |s|
    decreases |s|
  {
    if |s| >= 2 && s[0] == a && s[1] == b {
      ReplacePairGrows(s[2..], a, b, r);
    } else if s != [] {
      ReplacePairGrows(s[1..], a, b, r);
    }
  }

  lemma ReplacePairKeep(c: char, w: string, a: char, b: char, r: string)
    requires c != a || w == [] || w[0] != b
    ensures ReplacePair([c] + w, a, b, r) == [c] + ReplacePair(w, a, b, r)
  {
    assert ([c] + w)[1..] == w;
  }

  lemma ReplacePairHit(w: string, a: char, b: char, r: string)
    ensures ReplacePair([a, b] + w, a, b, r) == r + ReplacePair(w, a, b, r)
  {
    assert ([a, b] + w)[2..] == w;
  }

  /** Number of replacements `ReplacePair` makes. */
  function PairCount(s: string, a: char, b: char): nat {
    if |s| >= 2 && s[0] == a && s[1] == b then 1 + PairCount(s[2..], a, b)
    else if s == [] then 0
    else PairCount(s[1..], a, b)
  }

  /** Replacing a pair by one character shortens the text by one per replacement. */
  lemma {:induction false} ReplacePairLength(s: string, a: char, b: char, c: char)
    ensures |ReplacePair(s, a, b, [c])| == |s| - PairCount(s, a, b)
    ensures PairCount(s, a, b) <= |s| / 2
  {
    if |s| >= 2 && s[0] == a && s[1] == b {
      ReplacePairLength(s[2..], a, b, c);
    } else if s != [] {
      ReplacePairLength(s[1..], a, b, c);
    }
  }

  /** `StringUtils.join(xs, sep)`. */
  function Join(xs: seq<string>, sep: string): string {
    if |xs| == 0 then "" else if |xs| == 1 then xs[0] else xs[0] + sep + Join(xs[1..], sep)
  }

  function Concat(xs: seq<string>): string {
    if xs == [] then "" else xs[0] + Concat(xs[1..])
  }

  lemma {:induction false} ConcatAppend(xs: seq<string>, ys: seq<string>)
    ensures Concat(xs + ys) == Concat(xs) + Concat(ys)
  {
    if xs == [] {
      assert xs + ys == ys;
    } else {
      assert (xs + ys)[0] == xs[0];
      assert (xs + ys)[1..] == xs[1..] + ys;
      ConcatAppend(xs[1..], ys);
    }
  }

  /** Joining with the empty separator (a `null` one in Commons Lang) concatenates. */
  lemma {:induction false} JoinWithoutSeparator(xs: seq<string>)
    ensures Join(xs, "") == Concat(xs)
  {
    if |xs| > 1 {
      JoinWithoutSeparator(xs[1..]);
    }
  }

  /** Every character of every item survives the join. */
  lemma {:induction false} JoinKeepsItemChars(xs: seq<string>, sep: string, i: nat, k: nat)
    requires i < |xs| && k < |xs[i]|
    ensures xs[i][k] in Join(xs, sep)
  {
    if |xs| > 1 {
      if i == 0 {
        assert Join(xs, sep)[k] == xs[0][k];
      } else {
        JoinKeepsItemChars(xs[1..], sep, i - 1, k);
        var j := Join(xs[1..], sep);
        var m :| 0 <= m < |j| && j[m] == xs[i][k];
        assert Join(xs, sep)[|xs[0]| + |sep| + m] == xs[i][k];
      }
    }
  }

  /** Characters that `String.trim` strips: code points up to U+0020. */
  predicate IsTrimmed(c: char) { c <= ' ' }

  /** The first index from `st` on holding a character `String.trim` keeps (or `|s|`). */
  function FirstKept(s: string, st: nat): (i: nat)
    requires st <= |s|
    ensures st <= i <= |s|
    ensures forall k | st <= k < i :: IsTrimmed(s[k])
    ensures i < |s| ==> !IsTrimmed(s[i])
    decreases |s| - st
  {
    if st < |s| && IsTrimmed(s[st]) then FirstKept(s, st + 1) else st
  }

  /** The end of the kept part: `len` moved down past trimmable characters, not below `st`. */
  function KeptEnd(s: string, st: nat, len: nat): (j: nat)
    requires st <= len <= |s|
    ensures st <= j <= len
    ensures forall k | j <= k < len :: IsTrimmed(s[k])
    ensures j > st ==> !IsTrimmed(s[j - 1])
    decreases len
  {
    if st < len && IsTrimmed(s[len - 1]) then KeptEnd(s, st, len - 1) else len
  }

  /** `r` occurs in `s` at `a`, and everything around it is trimmable. */
  ghost predicate TrimmedFactorAt(s: string, r: string, a: int) {
    0 <= a <= |s| - |r| && r == s[a..a + |r|]
    && (forall k | 0 <= k < a :: IsTrimmed(s[k]))
    && (forall k | a + |r| <= k < |s| :: IsTrimmed(s[k]))
  }

  /** `String.trim`: the factor of `s` that neither starts nor ends with a character up to
      U+0020 and is surrounded in `s` only by such characters. */
  function Trim(s: string): (r: string)
    ensures r != [] ==> !IsTrimmed(r[0]) && !IsTrimmed(r[|r| - 1])
    ensures exists a :: TrimmedFactorAt(s, r, a)
  {
    var st := FirstKept(s, 0);
    var len := KeptEnd(s, st, |s|);
    assert TrimmedFactorAt(s, s[st..len], st);
    s[st..len]
  }

  /** A text that starts and ends with a character `String.trim` keeps is its own trim. */
  lemma TrimUntrimmed(s: string)
    requires s != [] && !IsTrimmed(s[0]) && !IsTrimmed(s[|s| - 1])
    ensures Trim(s) == s
  {
    var r := Trim(s);
    var a :| TrimmedFactorAt(s, r, a);
    assert a == 0;
    assert a + |r| == |s|;
    assert r == s[0..|s|];
  }

  /** Trimming gives the empty string exactly on blank texts. */
  lemma TrimEmptyIffBlank(s: string)
    ensures Trim(s) == [] <==> forall k | 0 <= k < |s| :: IsTrimmed(s[k])
  {
    var r := Trim(s);
    var a :| TrimmedFactorAt(s, r, a);
    if r != [] {
      assert s[a] == r[0];
    }
  }

  /** A text that starts with a visible character and ends with a visible character followed by
      one newline loses exactly that newline when trimmed. */
  lemma TrimDropsFinalNewline(s: string)
    requires |s| >= 2 && !IsTrimmed(s[0]) && s[|s| - 1] == '\n' && !IsTrimmed(s[|s| - 2])
    ensures Trim(s) == s[..|s| - 1]
  {
    assert FirstKept(s, 0) == 0;
    assert KeptEnd(s, 0, |s| - 1) == |s| - 1;
  }

  // ---- lines ----

  /** Index of the first `c` in `s`, or `|s|` when there is none. */
  function IndexOf(s: string, c: char): (k: nat)
    ensures k <= |s| && (k < |s| ==> s[k] == c)
    ensures forall j | 0 <= j < k :: s[j] != c
  {
    if s == [] then 0 else if s[0] == c then 0 else 1 + IndexOf(s[1..], c)
  }

  /** The lines of `s`, split at every `\n`; a text of `n` newlines has `n + 1` lines. */
  function Lines(s: string): (ls: seq<string>)
    ensures |ls| > 0
    decreases |s|
  {
    var k := IndexOf(s, '\n');
    if k == |s| then [s] else [s[..k]] + Lines(s[k + 1..])
  }

  lemma {:induction false} LinesAroundNewline(a: string, b: string)
    requires '\n' !in a
    ensures Lines(a + "\n" + b) == [a] + Lines(b)
  {
    var s := a + "\n" + b;
    assert forall j | 0 <= j < |a| :: s[j] == a[j];
    assert s[|a|] == '\n';
    assert IndexOf(s, '\n') == |a|;
    assert s[..|a|] == a;
    assert s[|a| + 1..] == b;
  }

  /** Joining two texts with a newline joins their lines. */
  lemma {:induction false} LinesJoin(x: string, y: string)
    ensures Lines(x + "\n" + y) == Lines(x) + Lines(y)
    decreases |x|
  {
    var k := IndexOf(x, '\n');
    if k == |x| {
      LinesAroundNewline(x, y);
    } else {
      var a, b := x[..k], x[k + 1..];
      assert x == a + "\n" + b;
      assert x + "\n" + y == a + "\n" + (b + "\n" + y);
      LinesAroundNewline(a, b + "\n" + y);
      LinesJoin(b, y);
    }
  }

  /** The multiline pattern `^line$` (with `\n` as line terminator) matches at index `i`. */
  ghost predicate LineAt(s: string, i: int, line: string) {
    0 <= i && i + |line| <= |s| && s[i..i + |line|] == line
    && (i == 0 || s[i - 1] == '\n')
    && (i + |line| == |s| || s[i + |line|] == '\n')
  }

  /** A match inside the first line of `s` is the whole first line. */
  lemma FirstLineMatch(s: string, i: int, line: string)
    requires '\n' !in line && LineAt(s, i, line) && i <= IndexOf(s, '\n')
    ensures i == 0 && line == s[..IndexOf(s, '\n')]
  {
    var k := IndexOf(s, '\n');
    assert forall j | 0 <= j < |line| :: line[j] == s[i + j];
  }

  /** Matches after a newline at `k` are the matches in the text after it. */
  lemma ShiftLineAt(s: string, k: nat, j: int, line: string)
    requires k < |s| && s[k] == '\n' && 0 <= j
    ensures LineAt(s[k + 1..], j, line) <==> LineAt(s, k + 1 + j, line)
  {
    var rest := s[k + 1..];
    if j + |line| <= |rest| {
      assert s[k + 1 + j..k + 1 + j + |line|] == rest[j..j + |line|];
      if j > 0 {
        assert rest[j - 1] == s[k + j];
      }
      if j + |line| < |rest| {
        assert rest[j + |line|] == s[k + 1 + j + |line|];
      }
    }
  }

  /** Every line of `s` is matched by `^line$` in `s`. */
  lemma {:induction false} LineMatches(s: string, line: string)
    requires line in Lines(s)
    ensures exists i | 0 <= i <= |s| :: LineAt(s, i, line)
    decreases |s|
  {
    var k := IndexOf(s, '\n');
    if k == |s| {
      assert LineAt(s, 0, line);
    } else if line == s[..k] {
      assert LineAt(s, 0, line);
    } else {
      var rest := s[k + 1..];
      assert line in Lines(rest);
      LineMatches(rest, line);
      var j :| 0 <= j <= |rest| && LineAt(rest, j, line);
      ShiftLineAt(s, k, j, line);
    }
  }

  /** A text without line terminator matched by `^line$` in `s` is one of the lines of `s`. */
  lemma {:induction false} MatchIsLine(s: string, i: int, line: string)
    requires '\n' !in line && LineAt(s, i, line)
    ensures line in Lines(s)
    decreases |s|
  {
    var k := IndexOf(s, '\n');
    if i <= k {
      FirstLineMatch(s, i, line);
      if k == |s| {
        assert s[..k] == s;
      }
      assert Lines(s)[0] == s[..k];
    } else {
      var rest := s[k + 1..];
      ShiftLineAt(s, k, i - k - 1, line);
      MatchIsLine(rest, i - k - 1, line);
      assert Lines(s) == [s[..k]] + Lines(rest);
    }
  }

  /** For a line without line terminator, being one of `Lines(s)` and being matched by
      `^line$` somewhere in `s` are the same. */
  lemma LinesMatchAnchors(s: string, line: string)
    requires '\n' !in line
    ensures line in Lines(s) <==> exists i | 0 <= i <= |s| :: LineAt(s, i, line)
  {
    if line in Lines(s) {
      LineMatches(s, line);
    }
    forall i | 0 <= i <= |s| && LineAt(s, i, line) ensures line in Lines(s) {
      MatchIsLine(s, i, line);
    }
  }
}
