/**
  TryParseRange (MathGen/Program.cs): reads the outcome range typed at the
  console, "<min>-<max>", into two ints. The input is split at every '-';
  it is accepted only when there are exactly two parts, both parse with
  int.TryParse, and min <= max.
*/
module RangeParser {
  import opened Wrappers
  import opened Strings
  import opened Numerals

  /** The inclusive range of operands and outcomes. */
  datatype Range = Range(min: int, max: int)

  /** The two bounds, when the parts of the split input are exactly two ints in order. */
  function RangeOfParts(parts: seq<string>): Option<Range>
  {
    if |parts| == 2 then
      match (ParseInt(parts[0]), ParseInt(parts[1]))
      case (Some(lo), Some(hi)) => if lo <= hi then Some(Range(lo, hi)) else None
      case _ => None
    else
      None
  }

  /**
    TryParseRange(input, out min, out max): None for a null input and for every
    input it returns false on. A '-' can only be the separator, so an accepted
    range never has a negative bound.
  */
  function TryParseRange(input: Option<string>): (r: Option<Range>)
    ensures input.None? ==> r.None?
    ensures r.Some? ==> 0 <= r.value.min <= r.value.max <= Int32Max
  {
    match input
    case None => None
    case Some(s) => RangeOfParts(Split(s, '-'))
  }

  /**
    An input with exactly one '-', "<x>-<y>", is accepted if and only if both
    sides parse as ints and the first is not above the second, and the range
    is then those two ints.
  */
  lemma OneSeparatorRange(x: string, y: string)
    requires '-' !in x && '-' !in y
    ensures TryParseRange(Some(x + "-" + y)) ==
              if ParseInt(x).Some? && ParseInt(y).Some? && ParseInt(x).value <= ParseInt(y).value
              then Some(Range(ParseInt(x).value, ParseInt(y).value))
              else None
  {
    assert Join([x, y], '-') == x + "-" + y;
    SplitJoin([x, y], '-');
  }

  /** An input without a '-' is a single part, and is rejected. */
  lemma NoSeparatorRejected(s: string)
    requires '-' !in s
    ensures TryParseRange(Some(s)).None?
  {
    SplitWithoutSeparator(s, '-');
  }

  /** An input with two or more '-' splits into three or more parts, and is rejected. */
  lemma TwoSeparatorsRejected(s: string, i: nat, j: nat)
    requires i < j < |s| && s[i] == '-' && s[j] == '-'
    ensures TryParseRange(Some(s)).None?
  {
    SplitAtTwoSeparators(s, '-', i, j);
  }

  /** An input that starts with a minus sign is rejected: its first part is empty. */
  lemma LeadingMinusRejected(s: string)
    requires |s| > 0 && s[0] == '-'
    ensures TryParseRange(Some(s)).None?
  {
    var parts := Split(s, '-');
    assert Split(s, '-')[0] == "" by {
      assert s == [s[0]] + s[1..];
    }
    assert ReadInt(TrimWhite(parts[0])).None?;
  }

  /** Printing a range as "<min>-<max>" and parsing it gives the range back. */
  lemma {:induction false} ParseFormattedRange(lo: int, hi: int)
    requires 0 <= lo <= hi <= Int32Max
    ensures TryParseRange(Some(ShowInt(lo) + "-" + ShowInt(hi))) == Some(Range(lo, hi))
  {
    ParseFormattedRangeParts(lo, hi);
  }

  /** The bounds out of order, as in "5-3", are rejected. */
  lemma ReversedRangeRejected()
    ensures TryParseRange(Some("5-3")).None?
  {
    assert ShowInt(5) + "-" + ShowInt(3) == "5-3";
    ParseFormattedRangeParts(5, 3);
  }

  /** Splitting a formatted pair of non-negative ints gives the two numerals. */
  lemma ParseFormattedRangeParts(lo: int, hi: int)
    requires 0 <= lo <= Int32Max && 0 <= hi <= Int32Max
    ensures var parts := Split(ShowInt(lo) + "-" + ShowInt(hi), '-');
            parts == [ShowInt(lo), ShowInt(hi)]
            && ParseInt(parts[0]) == Some(lo) && ParseInt(parts[1]) == Some(hi)
  {
    var parts := [ShowInt(lo), ShowInt(hi)];
    assert '-' !in ShowInt(lo) by { ShowIntShape(lo); }
    assert '-' !in ShowInt(hi) by { ShowIntShape(hi); }
    assert Join(parts, '-') == ShowInt(lo) + "-" + ShowInt(hi);
    SplitJoin(parts, '-');
    ParseShowInt(lo);
    ParseShowInt(hi);
  }
}
