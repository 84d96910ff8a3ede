/** Numbers as the readout prints and reads them back.

    A figure of the readout is stored only as text. It is printed by a d3-format
    formatter and, on the next update, read back with JavaScript's unary `+` as the
    start of the next animation. This module holds the printing of whole counts with
    `d3.format(',d')` and the reading of such text with `+`, and shows where the two
    fail to round-trip.
 */
module NumberText {

  /** A JavaScript number as far as the readout needs it: a finite value, or NaN. */
  datatype Number = Finite(value: real) | NaN

  /** What d3-format prints for NaN. */
  const NaNText: string := "NaN"

  predicate IsDigit(c: char) {
    '0' <= c <= '9'
  }

  predicate AllDigits(s: string) {
    forall k :: 0 <= k < |s| ==> IsDigit(s[k])
  }

  /** The character of the decimal digit d. */
  function DigitChar(d: nat): (c: char)
    requires d < 10
    ensures IsDigit(c)
    ensures c as int - '0' as int == d
  {
    ('0' as int + d) as char
  }

  function Pow10(k: nat): (p: nat)
    ensures p >= 1
  {
    if k == 0 then 1 else 10 * Pow10(k - 1)
  }

  /** The value of a string of decimal digits, most significant first; "" reads as 0. */
  function DigitsValue(s: string): nat
    requires AllDigits(s)
  {
    if s == [] then 0 else DigitsValue(s[..|s| - 1]) * 10 + (s[|s| - 1] as int - '0' as int)
  }

  /** The decimal digits of n, most significant first, without separators. */
  function Digits(n: nat): (s: string)
    ensures s != [] && AllDigits(s)
  {
    if n < 10 then [DigitChar(n)] else Digits(n / 10) + [DigitChar(n % 10)]
  }

  /** A comma before every group of three digits counted from the right: the `,` of `',d'`. */
  function Group(digits: string): string
    decreases |digits|
  {
    if |digits| <= 3 then digits else Group(digits[..|digits| - 3]) + "," + digits[|digits| - 3..]
  }

  /** What `d3.format(',d')` prints for a whole, non-negative count. */
  function FormatInt(n: nat): string {
    Group(Digits(n))
  }

  /** The position of the first c in s, or |s| when there is none. */
  function FirstIndex(s: string, c: char): (k: nat)
    ensures k <= |s|
    ensures forall p :: 0 <= p < k ==> s[p] != c
    ensures k < |s| ==> s[k] == c
  {
    if s == [] then 0 else if s[0] == c then 0 else 1 + FirstIndex(s[1..], c)
  }

  /** `s.replace(c, '')` for a one-character pattern: drops the first c only. */
  function ReplaceFirst(s: string, c: char): (r: string)
    ensures FirstIndex(s, c) == |s| ==> r == s
    ensures FirstIndex(s, c) < |s| ==> |r| == |s| - 1 && r == s[..FirstIndex(s, c)] + s[FirstIndex(s, c) + 1..]
  {
    var k := FirstIndex(s, c);
    if k < |s| then s[..k] + s[k + 1..] else s
  }

  /** Unsigned decimal text: digits, optionally a point and more digits, at least one digit. */
  function UnsignedValue(s: string): Number {
    var k := FirstIndex(s, '.');
    var whole := s[..k];
    var frac := if k < |s| then s[k + 1..] else [];
    if AllDigits(whole) && AllDigits(frac) && |whole| + |frac| > 0
    then Finite(DigitsValue(whole) as real + DigitsValue(frac) as real / Pow10(|frac|) as real)
    else NaN
  }

  /** JavaScript's unary `+` on a string: "" is 0, an optional '-' then unsigned decimal text
      is its value, and everything else this model knows of is NaN. */
  function ToNumber(s: string): Number {
    if s == [] then Finite(0.0)
    else if s[0] == '-' then
      match UnsignedValue(s[1..])
      case Finite(v) => Finite(-v)
      case NaN => NaN
    else UnsignedValue(s)
  }

  lemma {:induction false} DigitsValueOfDigits(n: nat)
    ensures DigitsValue(Digits(n)) == n
  {
    if n >= 10 {
      DigitsValueOfDigits(n / 10);
      var s := Digits(n);
      assert s[..|s| - 1] == Digits(n / 10);
    }
  }

  /** n has at most k digits exactly when n < 10^k. */
  lemma {:induction false} DigitsLength(n: nat, k: nat)
    requires k >= 1
    ensures |Digits(n)| <= k <==> n < Pow10(k)
  {
    if n >= 10 {
      if k == 1 {
        assert |Digits(n / 10)| >= 1;
      } else {
        DigitsLength(n / 10, k - 1);
        assert n / 10 < Pow10(k - 1) <==> n < Pow10(k);
      }
    } else {
      Pow10AtLeastTen(k);
    }
  }

  lemma {:induction false} Pow10AtLeastTen(k: nat)
    requires k >= 1
    ensures Pow10(k) >= 10
  {
    if k > 1 {
      Pow10AtLeastTen(k - 1);
    }
  }

  lemma {:induction false} GroupStartsWith(digits: string)
    requires digits != []
    ensures Group(digits) != [] && Group(digits)[0] == digits[0]
    decreases |digits|
  {
    if |digits| > 3 {
      GroupStartsWith(digits[..|digits| - 3]);
    }
  }

  /** A string that starts with anything but a digit, a point or a minus reads as NaN. */
  lemma ForeignStartIsNaN(s: string)
    requires s != [] && !IsDigit(s[0]) && s[0] != '.' && s[0] != '-'
    ensures ToNumber(s) == NaN
  {
    var k := FirstIndex(s, '.');
    assert k > 0;
    assert s[..k][0] == s[0];
  }

  /** A string with a comma in it reads as NaN. */
  lemma CommaIsNaN(s: string, p: nat)
    requires p < |s| && s[p] == ','
    ensures ToNumber(s) == NaN
  {
    if s[0] == '-' {
      assert s[1..][p - 1] == ',';
      CommaUnsignedIsNaN(s[1..], p - 1);
    } else {
      CommaUnsignedIsNaN(s, p);
    }
  }

  lemma CommaUnsignedIsNaN(s: string, p: nat)
    requires p < |s| && s[p] == ','
    ensures UnsignedValue(s) == NaN
  {
    var k := FirstIndex(s, '.');
    if p < k {
      assert s[..k][p] == ',';
    } else {
      assert s[k + 1..][p - k - 1] == ',';
    }
  }

  /** Printing a count and reading it back round-trips below 1000 and yields NaN from 1000 on,
      where the thousands separator appears. */
  lemma FormatIntRoundTrip(n: nat)
    ensures n < 1000 ==> ToNumber(FormatInt(n)) == Finite(n as real)
    ensures n >= 1000 ==> ToNumber(FormatInt(n)) == NaN
  {
    DigitsLength(n, 3);
    assert Pow10(3) == 1000;
    if n < 1000 {
      ShortCountRoundTrip(n);
    } else {
      LongCountIsNaN(n);
    }
  }

  lemma ShortCountRoundTrip(n: nat)
    requires |Digits(n)| <= 3
    ensures ToNumber(FormatInt(n)) == Finite(n as real)
  {
    var d := Digits(n);
    assert FormatInt(n) == d;
    DigitsValueOfDigits(n);
    DigitsOnlyValue(d);
  }

  /** Plain digits read as their value. */
  lemma DigitsOnlyValue(s: string)
    requires s != [] && AllDigits(s)
    ensures ToNumber(s) == Finite(DigitsValue(s) as real)
  {
    NoPointInDigits(s);
    assert s[..|s|] == s;
  }

  lemma NoPointInDigits(s: string)
    requires AllDigits(s)
    ensures FirstIndex(s, '.') == |s|
  {
    assert forall p :: 0 <= p < |s| ==> s[p] != '.';
  }

  lemma LongCountIsNaN(n: nat)
    requires |Digits(n)| > 3
    ensures ToNumber(FormatInt(n)) == NaN
  {
    var d := Digits(n);
    var head := Group(d[..|d| - 3]);
    assert FormatInt(n) == head + "," + d[|d| - 3..];
    assert FormatInt(n)[|head|] == ',';
    CommaIsNaN(FormatInt(n), |head|);
  }

  /** A printed count never reads "NaN": it starts with a digit. */
  lemma FormatIntIsNotNaN(n: nat)
    ensures FormatInt(n) != NaNText
    ensures IsDigit(FormatInt(n)[0])
  {
    GroupStartsWith(Digits(n));
  }

  /** "NaN" reads back as NaN. */
  lemma NaNTextIsNaN()
    ensures ToNumber(NaNText) == NaN
  {
    ForeignStartIsNaN(NaNText);
  }

  /** The text "0" a figure starts with reads as 0. */
  lemma ZeroTextIsZero()
    ensures ToNumber("0") == Finite(0.0)
  {
    assert FormatInt(0) == "0";
    FormatIntRoundTrip(0);
  }
}
