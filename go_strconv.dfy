/** strconv.ParseUint(s, 10, 64) and its inverse, decimal formatting. */
module GoStrconv {

  const MaxUint64: nat := 0xFFFF_FFFF_FFFF_FFFF

  type Uint64 = n: nat | n <= MaxUint64

  predicate IsDigit(ch: char)
  {
    '0' <= ch <= '9'
  }

  predicate AllDigits(s: string)
  {
    forall i :: 0 <= i < |s| ==> IsDigit(s[i])
  }

  function DigitValue(ch: char): nat
    requires IsDigit(ch)
  {
    ch as int - '0' as int
  }

  function DigitChar(d: nat): (ch: char)
    requires d < 10
    ensures IsDigit(ch) && DigitValue(ch) == d
  {
    ('0' as int + d) as char
  }

  /** The number a string of decimal digits denotes, most significant first. */
  function Value(s: string): nat
    requires AllDigits(s)
  {
    if s == [] then 0 else 10 * Value(s[..|s| - 1]) + DigitValue(s[|s| - 1])
  }

  /** Where ParseUint's loop stands after reading a prefix of its input: still
      accumulating, or already returned with a syntax or a range error. */
  datatype Scan = Accum(n: Uint64) | SyntaxError | RangeError

  /** ParseUint's loop over the characters of `p`, left to right. A character
      that is not a decimal digit returns a syntax error; a digit that would
      take the value past 2^64 - 1 returns a range error; both end the loop. */
  function ScanDecimal(p: string): Scan
  {
    if p == [] then Accum(0)
    else
      match ScanDecimal(p[..|p| - 1])
      case Accum(n) =>
        var ch := p[|p| - 1];
        if !IsDigit(ch) then SyntaxError
        else if 10 * n + DigitValue(ch) > MaxUint64 then RangeError
        else Accum(10 * n + DigitValue(ch))
      case SyntaxError => SyntaxError
      case RangeError => RangeError
  }

  /** The value strconv.ParseUint(s, 10, 64) returns, its error dropped:
      0 with a syntax error (empty input, a non-digit), 2^64 - 1 with a range
      error. */
  function ParseUint(s: string): Uint64
  {
    if s == "" then 0
    else
      match ScanDecimal(s)
      case Accum(n) => n
      case SyntaxError => 0
      case RangeError => MaxUint64
  }

  /** The loop accumulates the decimal value of a digit string until it no
      longer fits. */
  lemma {:induction false} ScanDigits(s: string)
    requires AllDigits(s)
    ensures ScanDecimal(s) == if Value(s) <= MaxUint64 then Accum(Value(s)) else RangeError
    decreases |s|
  {
    if s != [] {
      var p := s[..|s| - 1];
      assert AllDigits(p) by {
        forall i | 0 <= i < |p| ensures IsDigit(p[i]) { assert p[i] == s[i]; }
      }
      ScanDigits(p);
    }
  }

  /** Once the loop has returned, the rest of the input is never read. */
  lemma {:induction false} ScanErrorFinal(p: string, q: string)
    requires !ScanDecimal(p).Accum?
    ensures ScanDecimal(p + q) == ScanDecimal(p)
    decreases |q|
  {
    if q != [] {
      ScanErrorFinal(p, q[..|q| - 1]);
      assert (p + q)[..|p + q| - 1] == p + q[..|q| - 1];
    } else {
      assert p + q == p;
    }
  }

  /** ParseUint on a non-empty digit string: its value, saturated at 2^64 - 1. */
  lemma ParseUintDigits(s: string)
    requires s != "" && AllDigits(s)
    ensures ParseUint(s) == if Value(s) <= MaxUint64 then Value(s) else MaxUint64
  {
    ScanDigits(s);
  }

  /** ParseUint on a string whose first non-digit is at index k: 0, unless the
      digits before it already overflow, in which case 2^64 - 1. */
  lemma ParseUintNonDigit(s: string, k: nat)
    requires k < |s| && AllDigits(s[..k]) && !IsDigit(s[k])
    ensures ParseUint(s) == if Value(s[..k]) <= MaxUint64 then 0 else MaxUint64
  {
    ScanDigits(s[..k]);
    var p := s[..k + 1];
    assert p[..|p| - 1] == s[..k];
    assert !ScanDecimal(p).Accum?;
    ScanErrorFinal(p, s[k + 1..]);
    assert p + s[k + 1..] == s;
  }

  /** strconv.FormatUint(n, 10): decimal digits, no leading zero. */
  function FormatUint(n: nat): (s: string)
    ensures s != "" && AllDigits(s)
  {
    if n < 10 then [DigitChar(n)] else FormatUint(n / 10) + [DigitChar(n % 10)]
  }

  lemma {:induction false} ValueOfFormat(n: nat)
    ensures Value(FormatUint(n)) == n
  {
    var s := FormatUint(n);
    if n >= 10 {
      ValueOfFormat(n / 10);
      assert s[..|s| - 1] == FormatUint(n / 10);
    }
  }

  /** Parsing a formatted number gives it back. */
  lemma ParseFormat(n: Uint64)
    ensures ParseUint(FormatUint(n)) == n
  {
    ValueOfFormat(n);
    ParseUintDigits(FormatUint(n));
  }
}
