/**
  GenerateSums (MathGen/Program.cs): the rejection-sampling loop that builds
  the list of practice problems. Each pass draws two operands in [min, max]
  and, for operation choice "1" or "2", a coin; it keeps the problem when the
  operation's constraint holds and discards the draw otherwise. The loop ends
  when the list holds count problems.

  System.Random is replaced by a sequence of draws given up front; the length
  of that sequence bounds the number of passes, so the model always returns
  and reports how many passes it made.
*/
module SumGenerator {
  import opened Wrappers
  import opened Strings
  import opened Numerals

  datatype Op = Plus | Minus | Times | Divide

  /** "a op b = ", the only kind of string the generator emits. */
  datatype Problem = Problem(a: int, op: Op, b: int)

  /** One pass's draws: a and b from rand.Next(min, max + 1), heads for rand.Next(2) == 0. */
  datatype Draw = Draw(a: int, b: int, heads: bool)

  function Symbol(op: Op): char
  {
    match op
    case Plus => '+'
    case Minus => '-'
    case Times => '*'
    case Divide => '/'
  }

  function OpOf(c: char): (r: Option<Op>)
    ensures r.Some? ==> Symbol(r.value) == c
  {
    if c == '+' then Some(Plus)
    else if c == '-' then Some(Minus)
    else if c == '*' then Some(Times)
    else if c == '/' then Some(Divide)
    else None
  }

  /**
    The interpolated strings $"{a} + {b} = ", $"{a} - {b} = ", $"{a} * {b} = "
    and $"{a} / {b} = ". Each reads back as its operands and operation.
  */
  function Render(p: Problem): (s: string)
    ensures ParseProblem(s) == Some(p)
  {
    ReadProblemText(p);
    ShowInt(p.a) + " " + [Symbol(p.op)] + " " + ShowInt(p.b) + " = "
  }

  /** Reads a problem string back: the partner of Render. */
  function ParseProblem(s: string): Option<Problem>
  {
    var parts := Split(s, ' ');
    if |parts| == 5 && |parts[1]| == 1 && parts[3] == "=" && parts[4] == "" then
      match (ReadInt(parts[0]), OpOf(parts[1][0]), ReadInt(parts[2]))
      case (Some(a), Some(op), Some(b)) => Some(Problem(a, op, b))
      case _ => None
    else
      None
  }

  /** Split at spaces, the text of a problem falls into its operand, symbol, operand, "=" and a trailing empty part. */
  lemma SplitProblemText(p: Problem)
    ensures Split(ShowInt(p.a) + " " + [Symbol(p.op)] + " " + ShowInt(p.b) + " = ", ' ')
            == [ShowInt(p.a), [Symbol(p.op)], ShowInt(p.b), "=", ""]
  {
    var parts := [ShowInt(p.a), [Symbol(p.op)], ShowInt(p.b), "=", ""];
    assert ' ' !in ShowInt(p.a) by { ShowIntShape(p.a); }
    assert ' ' !in ShowInt(p.b) by { ShowIntShape(p.b); }
    assert Join(parts[3..], ' ') == "= ";
    assert Join(parts[2..], ' ') == ShowInt(p.b) + " = ";
    assert Join(parts[1..], ' ') == [Symbol(p.op)] + " " + ShowInt(p.b) + " = ";
    assert Join(parts, ' ') == ShowInt(p.a) + " " + [Symbol(p.op)] + " " + ShowInt(p.b) + " = ";
    SplitJoin(parts, ' ');
  }

  /** The text of a problem reads back as the problem. */
  lemma ReadProblemText(p: Problem)
    ensures ParseProblem(ShowInt(p.a) + " " + [Symbol(p.op)] + " " + ShowInt(p.b) + " = ") == Some(p)
  {
    SplitProblemText(p);
  }

  predicate InRange(min: int, max: int, d: Draw)
  {
    min <= d.a <= max && min <= d.b <= max
  }

  /** The constraint each operation's problems keep, and which choice emits that operation. */
  predicate Constraint(choice: string, min: int, max: int, p: Problem)
  {
    match p.op
    case Plus => choice == "1" && p.a + p.b <= max
    case Minus => choice == "1" && p.a - p.b >= min
    case Times => choice == "2" && p.a * p.b <= max
    case Divide => choice == "2" && p.b != 0 && TruncDiv(p.a, p.b) >= min && TruncRem(p.a, p.b) == 0
  }

  /** A valid problem for the choice and range: operands in range and the operation's constraint. */
  predicate Satisfies(choice: string, min: int, max: int, p: Problem)
  {
    min <= p.a <= max && min <= p.b <= max && Constraint(choice, min, max, p)
  }

  /**
    One pass of the loop body: the problem kept from the draw, or None when
    sum stays null. The coin is tried first; tails, or heads with a failing
    constraint, falls through to the second operation. Any choice other than
    "1" and "2" keeps nothing.
  */
  function Attempt(choice: string, min: int, max: int, d: Draw): (r: Option<Problem>)
    ensures r.Some? ==> r.value.a == d.a && r.value.b == d.b
    ensures r.Some? ==> Constraint(choice, min, max, r.value)
    ensures r.Some? && InRange(min, max, d) ==> Satisfies(choice, min, max, r.value)
    ensures choice != "1" && choice != "2" ==> r.None?
  {
    if choice == "1" then
      if d.heads && d.a + d.b <= max then Some(Problem(d.a, Plus, d.b))
      else if d.a - d.b >= min then Some(Problem(d.a, Minus, d.b))
      else None
    else if choice == "2" then
      if d.heads && d.a * d.b <= max then Some(Problem(d.a, Times, d.b))
      else if d.b != 0 && TruncDiv(d.a, d.b) >= min && TruncRem(d.a, d.b) == 0 then Some(Problem(d.a, Divide, d.b))
      else None
    else
      None
  }

  /** The problems kept over one pass per draw, in the order they were kept. */
  function Accepted(choice: string, min: int, max: int, draws: seq<Draw>): (kept: seq<Problem>)
    ensures |kept| <= |draws|
    decreases |draws|
  {
    if |draws| == 0 then
      []
    else
      var earlier := Accepted(choice, min, max, draws[..|draws| - 1]);
      match Attempt(choice, min, max, draws[|draws| - 1])
      case Some(p) => earlier + [p]
      case None => earlier
  }

  function RenderAll(ps: seq<Problem>): seq<string>
  {
    seq(|ps|, k requires 0 <= k < |ps| => Render(ps[k]))
  }

  lemma RenderAllAppend(ps: seq<Problem>, p: Problem)
    ensures RenderAll(ps + [p]) == RenderAll(ps) + [Render(p)]
  {
  }

  /** The list of problem strings after one pass per draw. */
  function Produced(choice: string, min: int, max: int, draws: seq<Draw>): seq<string>
  {
    RenderAll(Accepted(choice, min, max, draws))
  }

  /** A string is a kept problem: it reads back as a problem valid for the choice and range. */
  predicate IsAcceptedFact(choice: string, min: int, max: int, s: string)
  {
    match ParseProblem(s)
    case Some(p) => Satisfies(choice, min, max, p)
    case None => false
  }

  /**
    GenerateSums(operationChoice, min, max, count), with draws in place of the
    random source. Stops as soon as the list holds count problems, or when the
    draws run out; in the second case the source would still be looping.
  */
  method GenerateSums(choice: string, min: int, max: int, count: nat, draws: seq<Draw>)
    returns (sums: seq<string>, attempts: nat)
    requires forall k :: 0 <= k < |draws| ==> InRange(min, max, draws[k])
    ensures attempts <= |draws|
    ensures sums == Produced(choice, min, max, draws[..attempts])
    ensures |sums| == count || (|sums| < count && attempts == |draws|)
    ensures attempts > 0 ==> |Produced(choice, min, max, draws[..attempts - 1])| < count
    ensures forall k :: 0 <= k < |sums| ==> IsAcceptedFact(choice, min, max, sums[k])
  {
    sums := [];
    attempts := 0;
    ghost var kept: seq<Problem> := [];
    while |sums| < count && attempts < |draws|
      invariant attempts <= |draws|
      invariant kept == Accepted(choice, min, max, draws[..attempts])
      invariant sums == RenderAll(kept)
      invariant |sums| <= count
      invariant attempts > 0 ==> |Accepted(choice, min, max, draws[..attempts - 1])| < count
    {
      var sum := Attempt(choice, min, max, draws[attempts]);
      AcceptedStep(choice, min, max, draws, attempts);
      if sum.Some? {
        RenderAllAppend(kept, sum.value);
        sums := sums + [Render(sum.value)];
        kept := kept + [sum.value];
      }
      attempts := attempts + 1;
    }
    ProducedFacts(choice, min, max, draws[..attempts]);
  }

  /** One more pass appends the problem kept from the next draw, if any. */
  lemma AcceptedStep(choice: string, min: int, max: int, draws: seq<Draw>, n: nat)
    requires n < |draws|
    ensures Accepted(choice, min, max, draws[..n + 1]) ==
              match Attempt(choice, min, max, draws[n])
              case Some(p) => Accepted(choice, min, max, draws[..n]) + [p]
              case None => Accepted(choice, min, max, draws[..n])
  {
    assert draws[..n + 1][..n] == draws[..n];
  }

  /** One more pass adds at most one item. */
  lemma AcceptedStepLength(choice: string, min: int, max: int, draws: seq<Draw>, n: nat)
    requires n < |draws|
    ensures |Accepted(choice, min, max, draws[..n])| <= |Accepted(choice, min, max, draws[..n + 1])|
              <= |Accepted(choice, min, max, draws[..n])| + 1
  {
    AcceptedStep(choice, min, max, draws, n);
  }

  /** Over more passes the list only grows, and by at most one item per pass. */
  lemma {:induction false} AcceptedGrowth(choice: string, min: int, max: int, draws: seq<Draw>, k: nat, n: nat)
    requires k <= n <= |draws|
    ensures |Accepted(choice, min, max, draws[..k])| <= |Accepted(choice, min, max, draws[..n])|
    ensures |Accepted(choice, min, max, draws[..n])| <= |Accepted(choice, min, max, draws[..k])| + (n - k)
    decreases n - k
  {
    if k < n {
      AcceptedGrowth(choice, min, max, draws, k, n - 1);
      AcceptedStepLength(choice, min, max, draws, n - 1);
    }
  }

  /** Every kept problem is valid for the choice, with its operands in [min, max]. */
  lemma {:induction false} AcceptedSatisfy(choice: string, min: int, max: int, draws: seq<Draw>)
    requires forall k :: 0 <= k < |draws| ==> InRange(min, max, draws[k])
    ensures forall k :: 0 <= k < |Accepted(choice, min, max, draws)| ==>
              Satisfies(choice, min, max, Accepted(choice, min, max, draws)[k])
    decreases |draws|
  {
    if |draws| > 0 {
      AcceptedSatisfy(choice, min, max, draws[..|draws| - 1]);
    }
  }

  /** Every kept string reads back as a problem valid for the choice, with operands in [min, max]. */
  lemma ProducedFacts(choice: string, min: int, max: int, draws: seq<Draw>)
    requires forall k :: 0 <= k < |draws| ==> InRange(min, max, draws[k])
    ensures forall k :: 0 <= k < |Produced(choice, min, max, draws)| ==>
              IsAcceptedFact(choice, min, max, Produced(choice, min, max, draws)[k])
  {
    var kept := Accepted(choice, min, max, draws);
    AcceptedSatisfy(choice, min, max, draws);
    forall k | 0 <= k < |kept|
      ensures IsAcceptedFact(choice, min, max, Produced(choice, min, max, draws)[k])
    {
      assert Produced(choice, min, max, draws)[k] == Render(kept[k]);
    }
  }

  /** The true result of a problem; division is exact for kept problems. */
  function Answer(p: Problem): int
    requires p.op == Divide ==> p.b != 0
  {
    match p.op
    case Plus => p.a + p.b
    case Minus => p.a - p.b
    case Times => p.a * p.b
    case Divide => TruncDiv(p.a, p.b)
  }

  lemma MulMonotone(x: int, y: int, u: int, v: int)
    requires 0 <= x <= u && 0 <= y <= v
    ensures x * y <= u * v
  {
    calc {
      x * y;
    <= { assert (u - x) * y >= 0; }
      u * y;
    <= { assert u * (v - y) >= 0; }
      u * v;
    }
  }

  /**
    For a range the parser can produce (min >= 0), every kept problem is a
    true fact whose result also lies in [min, max], and a kept division is exact.
  */
  lemma AcceptedAnswerInRange(choice: string, min: int, max: int, p: Problem)
    requires 0 <= min
    requires Satisfies(choice, min, max, p)
    ensures min <= Answer(p) <= max
    ensures p.op == Divide ==> Answer(p) * p.b == p.a
  {
    match p.op
    case Plus =>
    case Minus =>
    case Times =>
      if min > 0 {
        MulMonotone(1, min, p.a, p.b);
      } else {
        MulMonotone(0, 0, p.a, p.b);
      }
    case Divide =>
      TruncAgreesOnNonNegative(p.a, p.b);
      assert p.a / p.b <= p.a by {
        MulMonotone(p.a / p.b, 1, p.a / p.b, p.b);
      }
  }

  /** Some draw in [min, max] is kept: the loop can make progress at all. */
  ghost predicate CanAccept(choice: string, min: int, max: int)
  {
    exists d :: InRange(min, max, d) && Attempt(choice, min, max, d).Some?
  }

  /** Addition/subtraction can keep a problem exactly when 2 * min <= max. */
  lemma AddSubAcceptsIff(min: int, max: int)
    requires 0 <= min
    ensures CanAccept("1", min, max) <==> 2 * min <= max
  {
    if 2 * min <= max {
      assert Attempt("1", min, max, Draw(min, min, true)).Some?;
    }
    if CanAccept("1", min, max) {
      var d :| InRange(min, max, d) && Attempt("1", min, max, d).Some?;
    }
  }

  /** A kept multiplication or division has both factors at least min and its product at most max. */
  lemma MulDivKeptBound(min: int, max: int, d: Draw)
    requires 0 <= min && InRange(min, max, d)
    requires Attempt("2", min, max, d).Some?
    ensures min * min <= max
  {
    var p := Attempt("2", min, max, d).value;
    if p.op == Times {
      MulMonotone(min, min, p.a, p.b);
    } else {
      AcceptedAnswerInRange("2", min, max, p);
      MulMonotone(min, min, Answer(p), p.b);
    }
  }

  /** Multiplication/division can keep a problem exactly when min * min <= max. */
  lemma MulDivAcceptsIff(min: int, max: int)
    requires 0 <= min
    ensures CanAccept("2", min, max) <==> min * min <= max
  {
    if min * min <= max {
      assert Attempt("2", min, max, Draw(min, min, true)).Some?;
    }
    if CanAccept("2", min, max) {
      var d :| InRange(min, max, d) && Attempt("2", min, max, d).Some?;
      MulDivKeptBound(min, max, d);
    }
  }

  /** When no draw in range is kept, the list never grows, however many passes are made. */
  lemma {:induction false} NothingAcceptedNothingProduced(choice: string, min: int, max: int, draws: seq<Draw>)
    requires !CanAccept(choice, min, max)
    requires forall k :: 0 <= k < |draws| ==> InRange(min, max, draws[k])
    ensures Accepted(choice, min, max, draws) == [] && Produced(choice, min, max, draws) == []
    decreases |draws|
  {
    if |draws| > 0 {
      NothingAcceptedNothingProduced(choice, min, max, draws[..|draws| - 1]);
      assert Attempt(choice, min, max, draws[|draws| - 1]).None?;
    }
  }

  /** A choice other than "1" and "2" never adds to the list, whatever is drawn. */
  lemma {:induction false} OtherChoiceNeverGrows(choice: string, min: int, max: int, draws: seq<Draw>)
    requires choice != "1" && choice != "2"
    ensures Accepted(choice, min, max, draws) == [] && Produced(choice, min, max, draws) == []
    decreases |draws|
  {
    if |draws| > 0 {
      OtherChoiceNeverGrows(choice, min, max, draws[..|draws| - 1]);
    }
  }

  /** When some draw is kept, count copies of it are enough to finish the list. */
  lemma {:induction false} RepeatedDrawCompletes(choice: string, min: int, max: int, d: Draw, count: nat)
    requires Attempt(choice, min, max, d).Some?
    ensures |Accepted(choice, min, max, seq(count, _ => d))| == count
    ensures |Produced(choice, min, max, seq(count, _ => d))| == count
    decreases count
  {
    if count > 0 {
      var draws := seq(count, _ => d);
      assert draws[..count - 1] == seq(count - 1, _ => d);
      RepeatedDrawCompletes(choice, min, max, d, count - 1);
    }
  }

  /** Choice "1" with range 5-5 or 3-5, and choice "2" with range 2-2, can never finish a non-empty list. */
  lemma StallingRanges()
    ensures !CanAccept("1", 5, 5) && !CanAccept("1", 3, 5) && !CanAccept("2", 2, 2)
  {
    AddSubAcceptsIff(5, 5);
    AddSubAcceptsIff(3, 5);
    MulDivAcceptsIff(2, 2);
  }

  /** With range 1-1 multiplication/division does finish: "1 * 1 = " or "1 / 1 = " is always kept. */
  lemma SingleValueMulDivFinishes(heads: bool)
    ensures Attempt("2", 1, 1, Draw(1, 1, heads)).Some?
    ensures Render(Attempt("2", 1, 1, Draw(1, 1, heads)).value) in {"1 * 1 = ", "1 / 1 = "}
  {
    assert DigitChar(1) == '1';
    assert ShowInt(1) == ShowNat(1) == "1";
    if heads {
      assert Attempt("2", 1, 1, Draw(1, 1, heads)) == Some(Problem(1, Times, 1));
      assert Render(Problem(1, Times, 1)) == "1 * 1 = ";
    } else {
      assert TruncDiv(1, 1) == 1 && TruncRem(1, 1) == 0;
      assert Attempt("2", 1, 1, Draw(1, 1, heads)) == Some(Problem(1, Divide, 1));
      assert Render(Problem(1, Divide, 1)) == "1 / 1 = ";
    }
  }

  // As written, the constraint tests of Program.cs:82 and :93 run in unchecked
  // 32-bit int arithmetic, so a + b and a * b wrap around before the comparison.

  /** The loop body as written: sums and products compared after 32-bit wrap-around. */
  function AttemptAsWritten(choice: string, min: int, max: int, d: Draw): (r: Option<Problem>)
    requires 0 <= min && max <= Int32Max && InRange(min, max, d)
    ensures r.Some? ==> r.value.a == d.a && r.value.b == d.b
  {
    if choice == "1" then
      if d.heads && Wrap32(d.a + d.b) <= max then Some(Problem(d.a, Plus, d.b))
      else if d.a - d.b >= min then Some(Problem(d.a, Minus, d.b))
      else None
    else if choice == "2" then
      if d.heads && Wrap32(d.a * d.b) <= max then Some(Problem(d.a, Times, d.b))
      else if d.b != 0 && TruncDiv(d.a, d.b) >= min && TruncRem(d.a, d.b) == 0 then Some(Problem(d.a, Divide, d.b))
      else None
    else
      None
  }

  /** With range 0-70000, 65536 * 65536 wraps to 0 and is kept although its product exceeds max. */
  lemma ProductOverflowKept()
    ensures var d := Draw(65536, 65536, true);
            AttemptAsWritten("2", 0, 70000, d) == Some(Problem(65536, Times, 65536))
            && Answer(Problem(65536, Times, 65536)) > 70000
            && Attempt("2", 0, 70000, d) == Some(Problem(65536, Divide, 65536))
  {
    assert Wrap32(65536 * 65536) == 0;
  }

  /** With range 0-2147483646, 2000000000 + 2000000000 wraps negative and is kept although it exceeds max. */
  lemma SumOverflowKept()
    ensures var d := Draw(2000000000, 2000000000, true);
            AttemptAsWritten("1", 0, 2147483646, d) == Some(Problem(2000000000, Plus, 2000000000))
            && Answer(Problem(2000000000, Plus, 2000000000)) > 2147483646
            && Attempt("1", 0, 2147483646, d) == Some(Problem(2000000000, Minus, 2000000000))
  {
    assert Wrap32(2000000000 + 2000000000) == -294967296;
  }

  /** While max <= 46340 no sum or product leaves int, and the loop body as written keeps exactly what the model keeps. */
  lemma AsWrittenAgreesOnSmallRanges(choice: string, min: int, max: int, d: Draw)
    requires 0 <= min && max <= 46340 && InRange(min, max, d)
    ensures AttemptAsWritten(choice, min, max, d) == Attempt(choice, min, max, d)
  {
    MulMonotone(d.a, d.b, 46340, 46340);
  }
}
