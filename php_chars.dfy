/** Character classes and numeric escape values used by the PHP string grammar
    ("Strings" chapter of the PHP manual). Characters are Unicode scalar values;
    the classes are the ASCII ones the regular expressions of the source name. */
module PhpChars {

  const Backslash: char := '\\'
  const SingleQuote: char := '\''
  const DoubleQuote: char := '"'
  const Dollar: char := '$'
  const Newline: char := '\n'
  const CarriageReturn: char := '\r'
  const Tab: char := '\t'
  const VerticalTab: char := 11 as char
  const EscapeChar: char := 27 as char
  const FormFeed: char := 12 as char

  /** `[0-7]` */
  predicate IsOctalDigit(c: char) { '0' <= c <= '7' }

  /** `Character.isDigit`, restricted to the ASCII digits. */
  predicate IsDecimalDigit(c: char) { '0' <= c <= '9' }

  /** `[0-9A-Fa-f]` */
  predicate IsHexDigit(c: char) { IsDecimalDigit(c) || 'a' <= c <= 'f' || 'A' <= c <= 'F' }

  /** First character of a PHP identifier: `[a-zA-Z_\x7f-\xff]`. */
  predicate IsIdentifierStart(c: char) {
    'a' <= c <= 'z' || 'A' <= c <= 'Z' || c == '_' || (0x7F as char) <= c <= (0xFF as char)
  }

  /** Later character of a PHP identifier: `[a-zA-Z0-9_\x7f-\xff]`. */
  predicate IsIdentifierChar(c: char) { IsIdentifierStart(c) || IsDecimalDigit(c) }

  /** A whole PHP identifier: `[a-zA-Z_\x7f-\xff][a-zA-Z0-9_\x7f-\xff]*`. */
  predicate IsPhpIdentifier(s: string) {
    |s| > 0 && IsIdentifierStart(s[0]) && forall i | 1 <= i < |s| :: IsIdentifierChar(s[i])
  }

  lemma IdentifierCharsArePrintable(c: char)
    requires IsIdentifierChar(c)
    ensures c > ' ' && c != '\n' && c != '\'' && c != '<'
  {}

  function DigitValue(c: char): (v: nat)
    requires IsHexDigit(c)
    ensures v < 16
    ensures IsDecimalDigit(c) <==> v < 10
    ensures IsOctalDigit(c) <==> v < 8
  {
    if IsDecimalDigit(c) then (c as int) - ('0' as int)
    else if 'a' <= c <= 'f' then (c as int) - ('a' as int) + 10
    else (c as int) - ('A' as int) + 10
  }

  /** `Integer.parseInt(ds, 8)` on a string of octal digits. */
  function OctalValue(ds: string): int
    requires forall i | 0 <= i < |ds| :: IsOctalDigit(ds[i])
    decreases |ds|
  {
    if ds == [] then 0
    else
      assert IsOctalDigit(ds[|ds| - 1]);
      OctalValue(ds[..|ds| - 1]) * 8 + DigitValue(ds[|ds| - 1])
  }

  /** `Integer.parseInt(ds, 16)` on a string of hexadecimal digits. */
  function HexValue(ds: string): int
    requires forall i | 0 <= i < |ds| :: IsHexDigit(ds[i])
    decreases |ds|
  {
    if ds == [] then 0 else HexValue(ds[..|ds| - 1]) * 16 + DigitValue(ds[|ds| - 1])
  }

  function Pow(b: nat, n: nat): nat {
    if n == 0 then 1 else b * Pow(b, n - 1)
  }

  /** `n` octal digits denote a number below 8 to the `n`. */
  lemma {:induction false} OctalValueBound(ds: string)
    requires forall i | 0 <= i < |ds| :: IsOctalDigit(ds[i])
    ensures 0 <= OctalValue(ds) < Pow(8, |ds|)
    decreases |ds|
  {
    if ds != [] {
      OctalValueBound(ds[..|ds| - 1]);
    }
  }

  /** `n` hexadecimal digits denote a number below 16 to the `n`. */
  lemma {:induction false} HexValueBound(ds: string)
    requires forall i | 0 <= i < |ds| :: IsHexDigit(ds[i])
    ensures 0 <= HexValue(ds) < Pow(16, |ds|)
    decreases |ds|
  {
    if ds != [] {
      HexValueBound(ds[..|ds| - 1]);
    }
  }

  /** `(char) Integer.parseInt(ds, 8)` for the one to three digits of an octal escape: at most
      `\777`, so always a character of its own. */
  function OctalEscapeChar(ds: string): (c: char)
    requires |ds| <= 3 && forall i | 0 <= i < |ds| :: IsOctalDigit(ds[i])
    ensures c as int == OctalValue(ds) < 512
  {
    OctalValueBound(ds);
    assert Pow(8, 3) == 512;
    OctalValue(ds) as char
  }

  /** `(char) Integer.parseInt(ds, 16)` for the one or two digits of a hexadecimal escape. */
  function HexEscapeChar(ds: string): (c: char)
    requires |ds| <= 2 && forall i | 0 <= i < |ds| :: IsHexDigit(ds[i])
    ensures c as int == HexValue(ds) < 256
  {
    HexValueBound(ds);
    assert Pow(16, 2) == 256;
    HexValue(ds) as char
  }

  /** `Integer.parseInt(ds)` on a string of decimal digits. */
  function DecimalValue(ds: string): int
    requires forall i | 0 <= i < |ds| :: IsDecimalDigit(ds[i])
    decreases |ds|
  {
    if ds == [] then 0
    else
      assert IsDecimalDigit(ds[|ds| - 1]);
      DecimalValue(ds[..|ds| - 1]) * 10 + DigitValue(ds[|ds| - 1])
  }

  /** `n` decimal digits denote a number below 10 to the `n`. */
  lemma {:induction false} DecimalValueBound(ds: string)
    requires forall i | 0 <= i < |ds| :: IsDecimalDigit(ds[i])
    ensures 0 <= DecimalValue(ds) < Pow(10, |ds|)
    decreases |ds|
  {
    if ds != [] {
      DecimalValueBound(ds[..|ds| - 1]);
    }
  }

  /** `(char) Integer.parseInt(ds)` for the one to three digits of a decimal escape: at most
      999, so always a character of its own. */
  function DecimalEscapeChar(ds: string): (c: char)
    requires |ds| <= 3 && forall i | 0 <= i < |ds| :: IsDecimalDigit(ds[i])
    ensures c as int == DecimalValue(ds) < 1000
  {
    DecimalValueBound(ds);
    assert Pow(10, 3) == 1000;
    DecimalValue(ds) as char
  }
}
