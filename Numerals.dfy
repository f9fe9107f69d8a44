/**
  The C# integer facts the program relies on: decimal formatting as string
  interpolation does it, int.TryParse under NumberStyles.Integer, the 32-bit
  range of int, unchecked wrap-around, and division and remainder that
  truncate toward zero.
*/
module Numerals {
  import opened Wrappers

  const Int32Min: int := -0x8000_0000
  const Int32Max: int := 0x7FFF_FFFF

  predicate IsDigit(c: char) { '0' <= c <= '9' }

  /** The white space NumberStyles.AllowLeadingWhite/AllowTrailingWhite accept: U+0009 to U+000D and U+0020. */
  predicate IsWhite(c: char) { c == ' ' || '\t' <= c <= '\r' }

  predicate AllDigits(d: string) { forall k :: 0 <= k < |d| ==> IsDigit(d[k]) }

  function DigitChar(d: int): (c: char)
    requires 0 <= d < 10
    ensures IsDigit(c) && c as int - '0' as int == d
  {
    ('0' as int + d) as char
  }

  /** Decimal digits of n, most significant first, without leading zeros. */
  function ShowNat(n: nat): (s: string)
    ensures |s| > 0 && AllDigits(s)
    ensures n > 0 ==> s[0] != '0'
    decreases n
  {
    if n < 10 then [DigitChar(n)] else ShowNat(n / 10) + [DigitChar(n % 10)]
  }

  /** An int as "{n}" in a C# interpolated string: a minus sign for negative values, then the digits; reading it back gives n. */
  function ShowInt(n: int): (s: string)
    ensures ReadInt(s) == Some(n)
  {
    ReadSigned(n);
    if n < 0 then "-" + ShowNat(-n) else ShowNat(n)
  }

  /**
    A formatted int is a '-' for negative values followed by the decimal
    digits of the magnitude, with no '+' and no leading zero: a non-empty
    token without spaces or surrounding white space.
  */
  lemma ShowIntShape(n: int)
    ensures var s := ShowInt(n);
            |s| > 0 && !IsWhite(s[0]) && !IsWhite(s[|s| - 1]) && ' ' !in s && (n >= 0 <==> '-' !in s)
            && (n >= 0 ==> s == ShowNat(n))
            && (n < 0 ==> s[0] == '-' && s[1..] == ShowNat(-n))
            && AllDigits(if n < 0 then s[1..] else s)
            && (n != 0 ==> (if n < 0 then s[1] else s[0]) != '0')
  {
    var s := ShowInt(n);
    if n < 0 {
      assert s[0] == '-';
      assert s[1..] == ShowNat(-n);
      assert forall k :: 1 <= k < |s| ==> IsDigit(s[k]);
    } else {
      assert AllDigits(s);
    }
  }

  /** The value of a string of decimal digits. */
  function DigitsValue(d: string): nat
    requires AllDigits(d)
    decreases |d|
  {
    if |d| == 0 then 0 else DigitsValue(d[..|d| - 1]) * 10 + (d[|d| - 1] as int - '0' as int)
  }

  /** An optional sign followed by one or more decimal digits, with no bound on the value. */
  function ReadInt(t: string): (r: Option<int>)
    ensures r.Some? && r.value < 0 ==> |t| > 0 && t[0] == '-'
    ensures r.Some? ==> |t| > 0
  {
    if |t| > 0 && (t[0] == '-' || t[0] == '+') then
      var d := t[1..];
      if |d| > 0 && AllDigits(d) then Some(if t[0] == '-' then -(DigitsValue(d) as int) else DigitsValue(d)) else None
    else if |t| > 0 && AllDigits(t) then
      Some(DigitsValue(t))
    else
      None
  }

  /** The first index at or after i that does not hold white space, or |t|. */
  function SkipWhite(t: string, i: nat): (n: nat)
    requires i <= |t|
    ensures i <= n <= |t| && (n < |t| ==> !IsWhite(t[n]))
    ensures forall k :: i <= k < n ==> IsWhite(t[k])
    decreases |t| - i
  {
    if i < |t| && IsWhite(t[i]) then SkipWhite(t, i + 1) else i
  }

  /** Going back from hi, but not below lo, the end of the last character that is not white space. */
  function SkipWhiteBack(t: string, lo: nat, hi: nat): (n: nat)
    requires lo <= hi <= |t|
    ensures lo <= n <= hi && (n > lo ==> !IsWhite(t[n - 1]))
    ensures forall k :: n <= k < hi ==> IsWhite(t[k])
    decreases hi
  {
    if hi > lo && IsWhite(t[hi - 1]) then SkipWhiteBack(t, lo, hi - 1) else hi
  }

  /**
    The token without leading and trailing white space: the stretch of t left
    after dropping white space only, with no white space at either end.
  */
  function TrimWhite(t: string): (r: string)
    ensures exists i, j :: 0 <= i <= j <= |t| && r == t[i..j]
              && (forall k :: 0 <= k < i ==> IsWhite(t[k]))
              && (forall k :: j <= k < |t| ==> IsWhite(t[k]))
    ensures |r| > 0 ==> !IsWhite(r[0]) && !IsWhite(r[|r| - 1])
    ensures |t| > 0 && !IsWhite(t[0]) && !IsWhite(t[|t| - 1]) ==> r == t
  {
    var i := SkipWhite(t, 0);
    var j := SkipWhiteBack(t, i, |t|);
    t[i..j]
  }

  /** int.TryParse(t, out n): Some(n) when it returns true. */
  function ParseInt(t: string): (r: Option<int>)
    ensures r.Some? ==> Int32Min <= r.value <= Int32Max
    ensures r.Some? && r.value < 0 ==> '-' in t
  {
    match ReadInt(TrimWhite(t))
    case Some(n) => if Int32Min <= n <= Int32Max then Some(n) else None
    case None => None
  }

  lemma {:induction false} ShowNatValue(n: nat)
    ensures DigitsValue(ShowNat(n)) == n
    decreases n
  {
    if n >= 10 {
      ShowNatValue(n / 10);
      var s := ShowNat(n);
      assert s[..|s| - 1] == ShowNat(n / 10);
    }
  }

  /** Reading back a sign and the digits of the magnitude gives the int. */
  lemma ReadSigned(n: int)
    ensures ReadInt(if n < 0 then "-" + ShowNat(-n) else ShowNat(n)) == Some(n)
  {
    var m: nat := if n < 0 then -n else n;
    var d := ShowNat(m);
    ShowNatValue(m);
    assert IsDigit(d[0]);
    if n < 0 {
      var t := "-" + d;
      assert t[0] == '-' && t[1..] == d;
    }
  }

  /** int.TryParse accepts what interpolation prints, for every value of int. */
  lemma ParseShowInt(n: int)
    requires Int32Min <= n <= Int32Max
    ensures ParseInt(ShowInt(n)) == Some(n)
  {
    var s := ShowInt(n);
    assert |s| > 0 && !IsWhite(s[0]) && !IsWhite(s[|s| - 1]) by { ShowIntShape(n); }
  }

  /** The value of x in an unchecked 32-bit int: x reduced modulo 2^32 into [Int32Min, Int32Max]. */
  function Wrap32(x: int): (r: int)
    ensures Int32Min <= r <= Int32Max
    ensures (x - r) % 0x1_0000_0000 == 0
    ensures Int32Min <= x <= Int32Max ==> r == x
  {
    (x - Int32Min) % 0x1_0000_0000 + Int32Min
  }

  /** C#'s a / b on int: the quotient truncated toward zero. */
  function TruncDiv(a: int, b: int): int
    requires b != 0
  {
    var q := Abs(a) / Abs(b);
    if (a < 0) == (b < 0) then q else -q
  }

  /** C#'s a % b on int: a - (a / b) * b, which takes the sign of a. */
  function TruncRem(a: int, b: int): (r: int)
    requires b != 0
    ensures a == TruncDiv(a, b) * b + r
    ensures Abs(r) < Abs(b)
    ensures r != 0 ==> (r < 0 <==> a < 0)
  {
    a - TruncDiv(a, b) * b
  }

  function Abs(x: int): nat { if x < 0 then -x else x }

  /** C#'s a / b rounds toward zero: its magnitude is |a| / |b| rounded down, and its sign is that of a * b. */
  lemma TruncDivTowardZero(a: int, b: int)
    requires b != 0
    ensures var q := TruncDiv(a, b);
            Abs(q) * Abs(b) <= Abs(a) < (Abs(q) + 1) * Abs(b)
            && (q != 0 ==> (q < 0 <==> (a < 0) != (b < 0)))
  {
    var m, n := Abs(a), Abs(b);
    assert m == (m / n) * n + m % n;
    assert (m / n + 1) * n == (m / n) * n + n;
  }

  /** For non-negative operands C#'s and Dafny's division agree. */
  lemma TruncAgreesOnNonNegative(a: int, b: int)
    requires a >= 0 && b > 0
    ensures TruncDiv(a, b) == a / b && TruncRem(a, b) == a % b
  {
  }
}
