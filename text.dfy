/*
 * The few JavaScript string operations the engine and its views rely on:
 * `String.prototype.trim`, `Number.prototype.toString` on a non-negative
 * integer, and `padStart(2, "0")`.
 */
module Text {

  /** The characters `trim` strips: WhiteSpace and LineTerminator of ECMAScript. */
  predicate IsWhitespace(c: char) {
    c == '\t' || c == '\n' || c == '\U{000B}' || c == '\U{000C}' || c == '\r' || c == ' '
    || c == '\U{00A0}' || c == '\U{1680}' || ('\U{2000}' <= c <= '\U{200A}')
    || c == '\U{2028}' || c == '\U{2029}' || c == '\U{202F}' || c == '\U{205F}'
    || c == '\U{3000}' || c == '\U{FEFF}'
  }

  predicate AllWhitespace(s: string) {
    forall i :: 0 <= i < |s| ==> IsWhitespace(s[i])
  }

  /** How many whitespace characters `s` starts with. */
  function LeadingSpace(s: string): (k: nat)
    ensures k <= |s|
    ensures forall i :: 0 <= i < k ==> IsWhitespace(s[i])
    ensures k < |s| ==> !IsWhitespace(s[k])
  {
    if s == [] || !IsWhitespace(s[0]) then 0 else 1 + LeadingSpace(s[1..])
  }

  /** How many whitespace characters `s` ends with. */
  function TrailingSpace(s: string): (k: nat)
    ensures k <= |s|
    ensures forall i :: |s| - k <= i < |s| ==> IsWhitespace(s[i])
    ensures k < |s| ==> !IsWhitespace(s[|s| - 1 - k])
  {
    if s == [] || !IsWhitespace(s[|s| - 1]) then 0 else 1 + TrailingSpace(s[..|s| - 1])
  }

  /**
   * `s.trim()`: `s` without its leading and trailing whitespace, that is the
   * slice `s[i..j]` whose outside is all whitespace and whose ends are not.
   */
  function Trim(s: string): (r: string)
    ensures |r| <= |s|
    ensures r == [] || (!IsWhitespace(r[0]) && !IsWhitespace(r[|r| - 1]))
    ensures exists i, j :: 0 <= i <= j <= |s| && r == s[i..j]
                           && AllWhitespace(s[..i]) && AllWhitespace(s[j..])
  {
    var i := LeadingSpace(s);
    var j := TrimEnd(s);
    TrimCut(s);
    s[i..j]
  }

  /** Where `Trim` ends its slice: before the trailing whitespace, and never before where it starts. */
  function TrimEnd(s: string): nat {
    var i, k := LeadingSpace(s), TrailingSpace(s);
    if |s| - k < i then i else |s| - k
  }

  /** The cut `Trim` makes: whitespace outside, and no whitespace at either end of what is kept. */
  lemma TrimCut(s: string)
    ensures LeadingSpace(s) <= TrimEnd(s) <= |s|
    ensures AllWhitespace(s[..LeadingSpace(s)]) && AllWhitespace(s[TrimEnd(s)..])
    ensures LeadingSpace(s) < TrimEnd(s) ==> !IsWhitespace(s[LeadingSpace(s)]) && !IsWhitespace(s[TrimEnd(s) - 1])
  {
    TrimEnds(s);
    LeadingCut(s);
    TrailingCut(s);
  }

  lemma TrimEnds(s: string)
    ensures LeadingSpace(s) <= TrimEnd(s) <= |s|
    ensures LeadingSpace(s) < TrimEnd(s) ==> !IsWhitespace(s[LeadingSpace(s)]) && !IsWhitespace(s[TrimEnd(s) - 1])
  {
    var i, k := LeadingSpace(s), TrailingSpace(s);
    if i < TrimEnd(s) {
      assert TrimEnd(s) == |s| - k;
    }
  }

  lemma LeadingCut(s: string)
    ensures AllWhitespace(s[..LeadingSpace(s)])
  {
    var i := LeadingSpace(s);
    forall m | 0 <= m < i
      ensures IsWhitespace(s[..i][m])
    {
      assert s[..i][m] == s[m];
    }
  }

  lemma TrailingCut(s: string)
    ensures AllWhitespace(s[TrimEnd(s)..])
  {
    var j := TrimEnd(s);
    forall m | 0 <= m < |s| - j
      ensures IsWhitespace(s[j..][m])
    {
      assert s[j..][m] == s[j + m];
    }
  }

  /** A string comes out of `trim` unchanged when it has nothing to strip. */
  lemma TrimNoop(s: string)
    requires s == [] || (!IsWhitespace(s[0]) && !IsWhitespace(s[|s| - 1]))
    ensures Trim(s) == s
  {
    assert LeadingSpace(s) == 0;
    assert s[0..] == s;
  }

  /** `trim` is idempotent. */
  lemma TrimIdempotent(s: string)
    ensures Trim(Trim(s)) == Trim(s)
  {
    TrimNoop(Trim(s));
  }

  /** `s.trim()` is empty exactly when `s` is all whitespace: the test behind every `if (x.trim())`. */
  lemma TrimEmptyIff(s: string)
    ensures Trim(s) == [] <==> AllWhitespace(s)
  {
    var i, j := LeadingSpace(s), TrimEnd(s);
    TrimCut(s);
    assert Trim(s) == s[i..j];
    if i == j {
      assert s == s[..i] + s[j..];
    }
  }

  // ---- decimal numerals ----

  predicate IsDigit(c: char) {
    '0' <= c <= '9'
  }

  function DigitChar(d: nat): (c: char)
    requires d < 10
    ensures IsDigit(c)
  {
    (48 + d) as char
  }

  function DigitValue(c: char): (d: nat)
    requires IsDigit(c)
    ensures d < 10
  {
    (c as int) - 48
  }

  /**
   * `n.toString()` for a non-negative integer below 10^21 (every clock
   * reading and every count the engine formats): its decimal digits, most
   * significant first, without leading zeros.
   */
  function Decimal(n: nat): (r: string)
    ensures 1 <= |r|
    ensures forall i :: 0 <= i < |r| ==> IsDigit(r[i])
    ensures n < 10 <==> |r| == 1
    ensures |r| > 1 ==> r[0] != '0'
    decreases n
  {
    if n < 10 then [DigitChar(n)] else Decimal(n / 10) + [DigitChar(n % 10)]
  }

  /** The number a string of decimal digits denotes. */
  function DecimalValue(s: string): nat
    requires forall i :: 0 <= i < |s| ==> IsDigit(s[i])
  {
    if s == [] then 0 else DecimalValue(s[..|s| - 1]) * 10 + DigitValue(s[|s| - 1])
  }

  /** Reading back `n.toString()` gives `n`. */
  lemma {:induction false} DecimalRoundTrip(n: nat)
    ensures DecimalValue(Decimal(n)) == n
    decreases n
  {
    var r := Decimal(n);
    if n < 10 {
      assert r[..0] == [];
    } else {
      DecimalRoundTrip(n / 10);
      assert r[..|r| - 1] == Decimal(n / 10);
    }
  }

  /** Distinct numbers print differently, so ids made from distinct clock readings differ. */
  lemma DecimalInjective(a: nat, b: nat)
    requires Decimal(a) == Decimal(b)
    ensures a == b
  {
    DecimalRoundTrip(a);
    DecimalRoundTrip(b);
  }

  /** `s.padStart(2, "0")`: zeros in front until the length is two; longer strings are kept. */
  function PadStart2(s: string): (r: string)
    ensures |s| >= 2 ==> r == s
    ensures |s| < 2 ==> |r| == 2 && r[2 - |s|..] == s && forall i :: 0 <= i < 2 - |s| ==> r[i] == '0'
  {
    if |s| >= 2 then s else seq(2 - |s|, _ => '0') + s
  }

  /** A number below 100, printed and padded to two places, is its tens digit then its units digit. */
  lemma TwoDigits(n: nat)
    requires n < 100
    ensures PadStart2(Decimal(n)) == [DigitChar(n / 10), DigitChar(n % 10)]
  {
    if n >= 10 {
      assert Decimal(n / 10) == [DigitChar(n / 10)];
    }
  }
}
