/**
 * Window titles. A window is titled either "Initial window" (the one created
 * at start-up) or "Window " followed by the decimal form of the number of
 * windows that were open when it was created. The title is kept as a small
 * datatype; `Render` produces the displayed string and `ParseTitle` reads it
 * back, and the two are proved inverse to each other.
 */
module Titles {
  import opened Wrappers

  datatype Title = Initial | Numbered(n: nat)

  const InitialText: string := "Initial window"
  const NumberedPrefix: string := "Window "

  predicate IsDigit(c: char) {
    '0' <= c <= '9'
  }

  predicate AllDigits(s: string) {
    forall i :: 0 <= i < |s| ==> IsDigit(s[i])
  }

  /** A numeral as an integer's string template prints it: non-empty, digits
      only, and no leading zero unless the numeral is "0" itself. */
  predicate IsCanonicalDecimal(s: string) {
    |s| >= 1 && AllDigits(s) && (|s| == 1 || s[0] != '0')
  }

  function DigitValue(c: char): (d: nat)
    requires IsDigit(c)
    ensures d < 10
  {
    c as int - '0' as int
  }

  function DigitChar(d: nat): (c: char)
    requires d < 10
    ensures IsDigit(c) && DigitValue(c) == d
  {
    ('0' as int + d) as char
  }

  lemma DigitCharOfValue(c: char)
    requires IsDigit(c)
    ensures DigitChar(DigitValue(c)) == c
  {
  }

  /** Decimal form of a non-negative integer, most significant digit first. */
  function DecimalString(n: nat): (s: string)
    ensures IsCanonicalDecimal(s)
    ensures s[0] == '0' <==> n == 0
  {
    if n < 10 then [DigitChar(n)] else DecimalString(n / 10) + [DigitChar(n % 10)]
  }

  /** Value of a string of digits read in base ten. */
  function ParseDecimal(s: string): nat
    requires AllDigits(s)
  {
    if |s| == 0 then 0 else 10 * ParseDecimal(s[..|s| - 1]) + DigitValue(s[|s| - 1])
  }

  lemma {:induction false} ParseOfDecimal(n: nat)
    ensures ParseDecimal(DecimalString(n)) == n
  {
    if n >= 10 {
      var s := DecimalString(n / 10);
      var t := s + [DigitChar(n % 10)];
      assert t == DecimalString(n);
      assert t[..|t| - 1] == s;
      ParseOfDecimal(n / 10);
    }
  }

  lemma {:induction false} ParseOfLeadingNonZero(s: string)
    requires |s| >= 1 && AllDigits(s) && s[0] != '0'
    ensures ParseDecimal(s) >= 1
  {
    if |s| > 1 {
      var p := s[..|s| - 1];
      assert p[0] == s[0];
      ParseOfLeadingNonZero(p);
    }
  }

  lemma {:induction false} DecimalOfParse(s: string)
    requires IsCanonicalDecimal(s)
    ensures DecimalString(ParseDecimal(s)) == s
  {
    if |s| == 1 {
      assert s[..0] == [];
      DigitCharOfValue(s[0]);
      assert DecimalString(ParseDecimal(s)) == [s[0]];
    } else {
      var p := s[..|s| - 1];
      var d := DigitValue(s[|s| - 1]);
      assert p[0] == s[0];
      ParseOfLeadingNonZero(p);
      var n := ParseDecimal(s);
      assert n == 10 * ParseDecimal(p) + d;
      assert n / 10 == ParseDecimal(p) && n % 10 == d;
      DecimalOfParse(p);
      DigitCharOfValue(s[|s| - 1]);
      assert s == p + [s[|s| - 1]];
    }
  }

  /** The string shown in the window's title bar. */
  function Render(t: Title): string {
    match t
    case Initial => InitialText
    case Numbered(n) => NumberedPrefix + DecimalString(n)
  }

  /** Reads a displayed title back; `None` for strings `Render` never produces. */
  function ParseTitle(s: string): Option<Title> {
    if s == InitialText then Some(Initial)
    else if |s| > |NumberedPrefix| && s[..|NumberedPrefix|] == NumberedPrefix
            && IsCanonicalDecimal(s[|NumberedPrefix|..])
    then Some(Numbered(ParseDecimal(s[|NumberedPrefix|..])))
    else None
  }

  lemma ParseRender(t: Title)
    ensures ParseTitle(Render(t)) == Some(t)
  {
    match t
    case Initial =>
    case Numbered(n) =>
      var s := Render(t);
      assert s[0] != InitialText[0];
      assert s[..|NumberedPrefix|] == NumberedPrefix;
      assert s[|NumberedPrefix|..] == DecimalString(n);
      ParseOfDecimal(n);
  }

  lemma RenderParse(s: string, t: Title)
    requires ParseTitle(s) == Some(t)
    ensures Render(t) == s
  {
    if s != InitialText {
      var digits := s[|NumberedPrefix|..];
      DecimalOfParse(digits);
      assert s == s[..|NumberedPrefix|] + digits;
    }
  }

  /** Distinct titles are displayed differently. */
  lemma RenderInjective(t1: Title, t2: Title)
    requires Render(t1) == Render(t2)
    ensures t1 == t2
  {
    ParseRender(t1);
    ParseRender(t2);
  }
}
