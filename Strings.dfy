/**
  Splitting a string at a separator character, as .NET's string.Split(char)
  does with no options: every occurrence of the separator ends a part, so
  "a-b" gives ["a", "b"], "-5" gives ["", "5"] and "" gives [""].
*/
module Strings {

  /** Glues the parts back together with the separator between consecutive parts. */
  function Join(parts: seq<string>, sep: char): string
    requires |parts| >= 1
    decreases |parts|
  {
    if |parts| == 1 then parts[0] else parts[0] + [sep] + Join(parts[1..], sep)
  }

  /** The parts of s between occurrences of sep. Joining them gives s back and no part holds sep. */
  function Split(s: string, sep: char): (parts: seq<string>)
    ensures |parts| >= 1
    ensures Join(parts, sep) == s
    ensures forall k :: 0 <= k < |parts| ==> sep !in parts[k]
    decreases |s|
  {
    if |s| == 0 then
      [""]
    else
      var rest := Split(s[1..], sep);
      if s[0] == sep then
        assert [s[0]] + s[1..] == s;
        [""] + rest
      else
        var parts := [[s[0]] + rest[0]] + rest[1..];
        assert parts[1..] == rest[1..];
        assert [s[0]] + s[1..] == s;
        parts
  }

  /** A string without the separator is a single part. */
  lemma {:induction false} SplitWithoutSeparator(x: string, sep: char)
    requires sep !in x
    ensures Split(x, sep) == [x]
    decreases |x|
  {
    if |x| > 0 {
      SplitWithoutSeparator(x[1..], sep);
      assert [x[0]] + x[1..] == x;
    }
  }

  /** The first separator ends the first part. */
  lemma {:induction false} SplitAtFirstSeparator(x: string, sep: char, y: string)
    requires sep !in x
    ensures Split(x + [sep] + y, sep) == [x] + Split(y, sep)
    decreases |x|
  {
    if |x| == 0 {
      assert x + [sep] + y == [sep] + y;
      assert ([sep] + y)[1..] == y;
    } else {
      var s := x + [sep] + y;
      SplitAtFirstSeparator(x[1..], sep, y);
      assert s[1..] == x[1..] + [sep] + y;
      var rest := Split(s[1..], sep);
      assert rest[0] == x[1..] && rest[1..] == Split(y, sep);
      assert s[0] == x[0] && s[0] != sep;
      assert [x[0]] + x[1..] == x;
    }
  }

  /** A separator anywhere in s ends a part, so there are at least two parts. */
  lemma {:induction false} SplitAtSeparator(s: string, sep: char, j: nat)
    requires j < |s| && s[j] == sep
    ensures |Split(s, sep)| >= 2
    decreases j
  {
    if j > 0 {
      SplitAtSeparator(s[1..], sep, j - 1);
    }
  }

  /** Two separators in s give at least three parts. */
  lemma {:induction false} SplitAtTwoSeparators(s: string, sep: char, i: nat, j: nat)
    requires i < j < |s| && s[i] == sep && s[j] == sep
    ensures |Split(s, sep)| >= 3
    decreases i
  {
    if i == 0 {
      SplitAtSeparator(s[1..], sep, j - 1);
    } else {
      SplitAtTwoSeparators(s[1..], sep, i - 1, j - 1);
    }
  }

  /** Split undoes Join when no part holds the separator. */
  lemma {:induction false} SplitJoin(parts: seq<string>, sep: char)
    requires |parts| >= 1
    requires forall k :: 0 <= k < |parts| ==> sep !in parts[k]
    ensures Split(Join(parts, sep), sep) == parts
    decreases |parts|
  {
    if |parts| == 1 {
      SplitWithoutSeparator(parts[0], sep);
    } else {
      SplitJoin(parts[1..], sep);
      SplitAtFirstSeparator(parts[0], sep, Join(parts[1..], sep));
      assert [parts[0]] + parts[1..] == parts;
    }
  }
}
