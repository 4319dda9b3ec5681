/**
 * The numeric columns of a species row: Java `int` with `Integer.parseInt`
 * and `String.valueOf(int)`, and `double` columns carried as the decimal
 * literal text they are written with.
 */
module Numbers {
  import opened Wrappers
  import opened Text

  const MinInt32: int := -0x8000_0000
  const MaxInt32: int := 0x7FFF_FFFF

  /** Java's `int`. */
  type Int32 = x: int | MinInt32 <= x <= MaxInt32

  predicate IsDigit(c: char) {
    '0' <= c <= '9'
  }

  predicate AllDigits(s: string) {
    forall k :: 0 <= k < |s| ==> IsDigit(s[k])
  }

  /** The value of a string of decimal digits, most significant first. */
  function DigitsValue(s: string): nat
    requires AllDigits(s)
  {
    if s == [] then 0 else DigitsValue(s[..|s| - 1]) * 10 + (s[|s| - 1] as int - '0' as int)
  }

  /** The decimal digits of `n` without leading zeros. */
  function DecimalDigits(n: nat): (r: string)
    ensures |r| >= 1 && AllDigits(r)
  {
    if n < 10 then [('0' as int + n) as char]
    else DecimalDigits(n / 10) + [('0' as int + n % 10) as char]
  }

  lemma {:induction false} DigitsRoundTrip(n: nat)
    ensures DigitsValue(DecimalDigits(n)) == n
  {
    if n >= 10 {
      var s := DecimalDigits(n);
      assert s[..|s| - 1] == DecimalDigits(n / 10);
      DigitsRoundTrip(n / 10);
    }
  }

  /** `String.valueOf(int)`: an optional minus sign and the digits of the magnitude. */
  function FormatInt(n: Int32): string {
    if n < 0 then "-" + DecimalDigits(-(n as int)) else DecimalDigits(n)
  }

  /**
   * `Integer.parseInt` on an already trimmed string: an optional sign, at
   * least one digit and nothing else, with a value that fits an `int`;
   * `None` stands for the NumberFormatException.
   */
  function ParseJavaInt(s: string): Option<Int32> {
    if s == [] then None
    else
      var digits := if s[0] == '-' || s[0] == '+' then s[1..] else s;
      if digits == [] || !AllDigits(digits) then None
      else
        var v: int := if s[0] == '-' then -(DigitsValue(digits) as int) else DigitsValue(digits);
        if MinInt32 <= v <= MaxInt32 then Some(v) else None
  }

  /** The species' `parseInt`: trims, and turns every parse failure into 0. */
  function ParseInt(s: string): Int32 {
    match ParseJavaInt(Trim(s))
    case Some(v) => v
    case None => 0
  }

  /** Every `int` written by `String.valueOf` is read back by `parseInt` unchanged. */
  lemma ParseIntOfFormatInt(n: Int32)
    ensures ParseInt(FormatInt(n)) == n
  {
    var s := FormatInt(n);
    TrimOfTrimmed(s);
    if n < 0 {
      DigitsRoundTrip(-(n as int));
      assert s[1..] == DecimalDigits(-(n as int));
    } else {
      DigitsRoundTrip(n);
    }
  }

  /** A column with no digit at all (say "noventa") is read as 0 rather than rejected. */
  lemma ParseIntWithoutDigits(s: string)
    requires forall k :: 0 <= k < |s| ==> !IsDigit(s[k])
    ensures ParseInt(s) == 0
  {
    var t := Trim(s);
    TrimIsSlice(s);
    var a := |s| - |TrimStart(s)|;
    forall k | 0 <= k < |t| ensures !IsDigit(t[k]) {
      assert t[k] == s[a + k];
    }
  }

  /** A number too large for an `int` ("2147483648" and up) is also read as 0. */
  lemma ParseIntOverflow(n: nat)
    requires n > MaxInt32
    ensures ParseInt(DecimalDigits(n)) == 0
  {
    var s := DecimalDigits(n);
    assert IsDigit(s[0]) && IsDigit(s[|s| - 1]);
    TrimOfTrimmed(s);
    DigitsRoundTrip(n);
    ParseUnsigned(s);
  }

  lemma ParseUnsigned(s: string)
    requires s != [] && AllDigits(s)
    ensures ParseJavaInt(s) == if DigitsValue(s) <= MaxInt32 then Some(DigitsValue(s)) else None
  {
    assert IsDigit(s[0]);
  }

  /** The chars a decimal literal is made of. */
  predicate IsNumberChar(c: char) {
    IsDigit(c) || c == '+' || c == '-' || c == '.' || c == 'e' || c == 'E'
  }

  /** States of a recogniser for `[sign] (digits [. [digits]] | . digits) [(e|E) [sign] digits]`. */
  datatype LiteralState = Start | Signed | IntPart | Dot | FracPart | ExpMark | ExpSigned | ExpPart

  function NextState(st: LiteralState, c: char): Option<LiteralState> {
    var sign := c == '+' || c == '-';
    var exp := c == 'e' || c == 'E';
    match st
    case Start | Signed =>
      if IsDigit(c) then Some(IntPart)
      else if c == '.' then Some(Dot)
      else if sign && st == Start then Some(Signed)
      else None
    case IntPart =>
      if IsDigit(c) then Some(IntPart)
      else if c == '.' then Some(FracPart)
      else if exp then Some(ExpMark)
      else None
    case Dot => if IsDigit(c) then Some(FracPart) else None
    case FracPart =>
      if IsDigit(c) then Some(FracPart)
      else if exp then Some(ExpMark)
      else None
    case ExpMark =>
      if IsDigit(c) then Some(ExpPart)
      else if sign then Some(ExpSigned)
      else None
    case ExpSigned | ExpPart => if IsDigit(c) then Some(ExpPart) else None
  }

  predicate AcceptsFrom(s: string, st: LiteralState)
    decreases |s|
  {
    if s == [] then st == IntPart || st == FracPart || st == ExpPart
    else match NextState(st, s[0])
      case None => false
      case Some(next) => AcceptsFrom(s[1..], next)
  }

  /** The decimal floating-point literals the model reads as a `double`. */
  predicate IsDoubleLiteral(s: string) {
    AcceptsFrom(s, Start)
  }

  /** A `double` column, kept as the literal text it is written with. */
  type DoubleText = s: string | IsDoubleLiteral(s) witness "0.0"

  /** The species' `parseDouble`: a trimmed literal is kept, anything else becomes 0.0. */
  function ParseDouble(s: string): DoubleText {
    var t := Trim(s);
    if IsDoubleLiteral(t) then t else "0.0"
  }

  lemma {:induction false} AcceptedChars(s: string, st: LiteralState)
    requires AcceptsFrom(s, st)
    ensures forall k :: 0 <= k < |s| ==> IsNumberChar(s[k])
    decreases |s|
  {
    if s != [] {
      AcceptedChars(s[1..], NextState(st, s[0]).value);
      assert forall k :: 1 <= k < |s| ==> s[k] == s[1..][k - 1];
    }
  }

  /** A literal is never empty and holds only digits, signs, '.', 'e' and 'E'. */
  lemma LiteralChars(d: DoubleText)
    ensures d != [] && forall k :: 0 <= k < |d| ==> IsNumberChar(d[k])
  {
    AcceptedChars(d, Start);
  }

  /** A `double` column read back from its own text is unchanged. */
  lemma ParseDoubleOfLiteral(d: DoubleText)
    ensures ParseDouble(d) == d
  {
    LiteralChars(d);
    assert d[0] > ' ' && d[|d| - 1] > ' ';
    TrimOfTrimmed(d);
  }

  /** `String.valueOf(int)` writes only digits and a leading minus sign. */
  lemma FormatIntChars(n: Int32)
    ensures FormatInt(n) != [] && forall k :: 0 <= k < |FormatInt(n)| ==> IsNumberChar(FormatInt(n)[k])
  {
  }
}
