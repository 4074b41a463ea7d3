/** ASCII decimal numerals: their values, .NET's `uint.TryParse` on them, and
    the `N0` rendering with ',' as the thousands separator. */
module Numerals {
  import opened Wrappers

  /** One more than `uint.MaxValue`. */
  const UintLimit: nat := 0x1_0000_0000

  type uint32 = x: nat | x < UintLimit
  type uint64 = x: nat | x < 0x1_0000_0000_0000_0000

  /** The model's `\d`: ASCII digits only. */
  predicate IsDigit(c: char) {
    '0' <= c <= '9'
  }

  predicate AllDigits(s: string) {
    forall i :: 0 <= i < |s| ==> IsDigit(s[i])
  }

  function DigitValue(c: char): nat
    requires IsDigit(c)
  {
    c as int - '0' as int
  }

  function DigitChar(d: nat): (c: char)
    requires d < 10
    ensures IsDigit(c) && DigitValue(c) == d
  {
    ('0' as int + d) as char
  }

  /** The value of a decimal numeral, most significant digit first; leading
      zeros are allowed, as `uint.TryParse` allows them. */
  function ValueOf(ds: string): (v: nat)
    requires AllDigits(ds)
    decreases |ds|
  {
    if |ds| == 0 then 0 else ValueOf(ds[..|ds| - 1]) * 10 + DigitValue(ds[|ds| - 1])
  }

  function Pow10(k: nat): (r: nat)
    ensures r >= 1
  {
    if k == 0 then 1 else 10 * Pow10(k - 1)
  }

  /** Shortest decimal numeral of `n`. */
  function DecimalString(n: nat): (r: string)
    ensures |r| > 0 && AllDigits(r)
    ensures r[0] != '0' || n == 0
    decreases n
  {
    if n < 10 then [DigitChar(n)] else DecimalString(n / 10) + [DigitChar(n % 10)]
  }

  /** `uint.TryParse` applied to a regex capture: it succeeds exactly on a
      non-empty run of digits whose value fits in 32 bits. */
  function ParseUint(s: string): (r: Option<uint32>)
  {
    if |s| > 0 && AllDigits(s) && ValueOf(s) < UintLimit then Some(ValueOf(s)) else None
  }

  /** Exactly three digits, zero-padded: one thousands group. */
  function Pad3(r: nat): (s: string)
    requires r < 1000
    ensures |s| == 3 && AllDigits(s)
  {
    [DigitChar(r / 100), DigitChar(r / 10 % 10), DigitChar(r % 10)]
  }

  /** `n.ToString("N0")` under a culture whose group separator is ',' and
      whose groups have three digits. */
  function GroupThousands(n: nat): (s: string)
    ensures |s| > 0 && IsDigit(s[0])
    decreases n
  {
    if n < 1000 then DecimalString(n) else GroupThousands(n / 1000) + "," + Pad3(n % 1000)
  }

  /** Reading a numeral back gives the number it was written from. */
  lemma {:induction false} DecimalStringValue(n: nat)
    ensures ValueOf(DecimalString(n)) == n
    decreases n
  {
    if n >= 10 {
      var s := DecimalString(n);
      assert s[..|s| - 1] == DecimalString(n / 10);
      DecimalStringValue(n / 10);
    }
  }

  /** `uint.TryParse` accepts the numeral of every 32-bit value and rejects
      the numeral of every larger one. */
  lemma ParseUintRoundTrip(n: nat)
    ensures n < UintLimit ==> ParseUint(DecimalString(n)) == Some(n)
    ensures n >= UintLimit ==> ParseUint(DecimalString(n)) == None
  {
    DecimalStringValue(n);
  }

  /** Leading zeros do not change the parsed value. */
  lemma {:induction false} LeadingZero(ds: string)
    requires AllDigits(ds)
    ensures AllDigits("0" + ds) && ValueOf("0" + ds) == ValueOf(ds)
    decreases |ds|
  {
    if |ds| > 0 {
      var z := "0" + ds;
      assert z[..|z| - 1] == "0" + ds[..|ds| - 1];
      LeadingZero(ds[..|ds| - 1]);
    }
  }

  lemma Pad3Value(r: nat)
    requires r < 1000
    ensures ValueOf(Pad3(r)) == r
  {
    var s := Pad3(r);
    assert s[..2][..1] == s[..1];
    assert ValueOf(s[..1]) == r / 100;
  }

  lemma ShiftDigit(a: nat, p: nat, b: nat, d: nat)
    ensures (a * p + b) * 10 + d == a * (p * 10) + (b * 10 + d)
  {
  }

  /** The value of a concatenation: the left part is shifted by the length of the right. */
  lemma {:induction false} ValueOfConcat(x: string, y: string)
    requires AllDigits(x) && AllDigits(y)
    ensures AllDigits(x + y)
    ensures ValueOf(x + y) == ValueOf(x) * Pow10(|y|) + ValueOf(y)
    decreases |y|
  {
    if |y| == 0 {
      assert x + y == x;
    } else {
      var xy := x + y;
      var y' := y[..|y| - 1];
      assert xy[..|xy| - 1] == x + y';
      ValueOfConcat(x, y');
      var d := DigitValue(y[|y| - 1]);
      assert xy[|xy| - 1] == y[|y| - 1];
      assert ValueOf(xy) == ValueOf(x + y') * 10 + d;
      assert ValueOf(y) == ValueOf(y') * 10 + d;
      assert Pow10(|y|) == Pow10(|y'|) * 10;
      ShiftDigit(ValueOf(x), Pow10(|y'|), ValueOf(y'), d);
    }
  }
}
