/** The small numeric and string helpers of the functions notes: `power`,
    `findSolution`, `zeroPad`, `roundTo`, `minus` and `multiplier`.
    Numbers are integers here. */
module Functions {
  import opened Wrappers
  import opened Strings

  // ----------------------------------------------------------------- power

  /** `power(base, exponent)`: 1 for exponent 0, else base times the power one lower. */
  function Power(base: int, exponent: nat): int
  {
    if exponent == 0 then 1 else base * Power(base, exponent - 1)
  }

  /** Exponents add when powers of one base multiply. */
  lemma {:induction false} PowerAdd(base: int, m: nat, n: nat)
    ensures Power(base, m + n) == Power(base, m) * Power(base, n)
  {
    if m > 0 {
      PowerAdd(base, m - 1, n);
      assert Power(base, m + n) == base * Power(base, m - 1 + n);
    }
  }

  /** `power(2, 3)` is 8. */
  lemma PowerExample()
    ensures Power(2, 3) == 8
  {
  }

  // ---------------------------------------------------------- findSolution

  /** The two moves of the puzzle: add 5 or multiply by 3. */
  datatype Move = AddFive | TimesThree

  function Next(current: int, move: Move): int
  {
    match move
    case AddFive => current + 5
    case TimesThree => current * 3
  }

  /** The history after a move: `(${history} + 5)` or `(${history} * 3)`. */
  function Record(history: string, move: Move): string
  {
    match move
    case AddFive => "(" + history + " + 5)"
    case TimesThree => "(" + history + " * 3)"
  }

  /** `find(current, history)`: the first history, trying "+ 5" before
      "* 3", that reaches `target`; None (`null`) when every path from
      `current` overshoots. Each call raises `current` (it is at least 1), so
      the search ends once `current` passes `target`. */
  function Find(target: int, current: int, history: string): Option<string>
    requires current >= 1
    decreases target - current
  {
    if current == target then Some(history)
    else if current > target then None
    else match Find(target, Next(current, AddFive), Record(history, AddFive))
      case Some(found) => Some(found)
      case None => Find(target, Next(current, TimesThree), Record(history, TimesThree))
  }

  /** `findSolution(target)`: search from 1 with history "1". */
  function FindSolution(target: int): Option<string>
  {
    Find(target, 1, "1")
  }

  /** Once `current` passes `target` the search gives up. */
  lemma FindOvershoot(target: int, current: int, history: string)
    requires current >= 1 && current > target
    ensures Find(target, current, history) == None
  {
  }

  /** The value of a history string: "1", or a history wrapped as
      `(h + 5)` or `(h * 3)`; None for any other text. */
  function Evaluate(history: string): Option<int>
    decreases |history|
  {
    if history == "1" then Some(1)
    else if |history| >= 6 && history[0] == '(' then
      var inner, suffix := history[1..|history| - 5], history[|history| - 5..];
      match Evaluate(inner)
      case None => None
      case Some(v) =>
        if suffix == " + 5)" then Some(v + 5)
        else if suffix == " * 3)" then Some(v * 3)
        else None
    else None
  }

  /** Recording a move in the history applies the move to its value. */
  lemma EvaluateRecord(history: string, move: Move)
    ensures Evaluate(Record(history, move))
         == match Evaluate(history)
            case None => None
            case Some(v) => Some(Next(v, move))
  {
  }

  /** Whatever `find` returns evaluates to the target. */
  lemma {:induction false} FindSound(target: int, current: int, history: string)
    requires current >= 1 && Evaluate(history) == Some(current)
    ensures Find(target, current, history).Some? ==>
      Evaluate(Find(target, current, history).value) == Some(target)
    decreases target - current
  {
    if current < target {
      EvaluateRecord(history, AddFive);
      EvaluateRecord(history, TimesThree);
      FindSound(target, Next(current, AddFive), Record(history, AddFive));
      FindSound(target, Next(current, TimesThree), Record(history, TimesThree));
    }
  }

  /** The value reached from `current` by a sequence of moves. */
  function Apply(moves: seq<Move>, current: int): int
  {
    if moves == [] then current else Apply(moves[1..], Next(current, moves[0]))
  }

  lemma {:induction false} ApplyNeverDecreases(moves: seq<Move>, current: int)
    requires current >= 1
    ensures Apply(moves, current) >= current
  {
    if moves != [] {
      ApplyNeverDecreases(moves[1..], Next(current, moves[0]));
    }
  }

  /** If some sequence of moves leads from `current` to `target`, `find` finds a path. */
  lemma {:induction false} FindComplete(target: int, current: int, history: string, moves: seq<Move>)
    requires current >= 1 && Apply(moves, current) == target
    ensures Find(target, current, history).Some?
    decreases |moves|
  {
    ApplyNeverDecreases(moves, current);
    if current != target {
      FindComplete(target, Next(current, moves[0]), Record(history, moves[0]), moves[1..]);
    }
  }

  /** When `find` finds a path, some sequence of moves leads to the target. */
  lemma {:induction false} FindWitness(target: int, current: int, history: string)
    returns (moves: seq<Move>)
    requires current >= 1 && Find(target, current, history).Some?
    ensures Apply(moves, current) == target
    decreases target - current
  {
    if current == target {
      moves := [];
    } else if Find(target, Next(current, AddFive), Record(history, AddFive)).Some? {
      var rest := FindWitness(target, Next(current, AddFive), Record(history, AddFive));
      moves := [AddFive] + rest;
      assert moves[1..] == rest;
    } else {
      var rest := FindWitness(target, Next(current, TimesThree), Record(history, TimesThree));
      moves := [TimesThree] + rest;
      assert moves[1..] == rest;
    }
  }

  /** `findSolution(target)` answers exactly when the target can be reached
      from 1, and its answer evaluates to the target. */
  lemma FindSolutionCorrect(target: int)
    ensures FindSolution(target).Some? <==> exists moves :: Apply(moves, 1) == target
    ensures FindSolution(target).Some? ==> Evaluate(FindSolution(target).value) == Some(target)
  {
    FindSound(target, 1, "1");
    if FindSolution(target).Some? {
      var moves := FindWitness(target, 1, "1");
    } else if exists moves :: Apply(moves, 1) == target {
      var moves :| Apply(moves, 1) == target;
      FindComplete(target, 1, "1", moves);
    }
  }

  /** Whether `find` succeeds from `current`; the history plays no part in it. */
  predicate Reaches(target: int, current: int)
    requires current >= 1
    decreases target - current
  {
    current == target
    || (current < target
        && (Reaches(target, Next(current, AddFive)) || Reaches(target, Next(current, TimesThree))))
  }

  lemma {:induction false} FindSucceedsIff(target: int, current: int, history: string)
    requires current >= 1
    ensures Find(target, current, history).Some? <==> Reaches(target, current)
    decreases target - current
  {
    if current < target {
      FindSucceedsIff(target, Next(current, AddFive), Record(history, AddFive));
      FindSucceedsIff(target, Next(current, TimesThree), Record(history, TimesThree));
    }
  }

  /** `findSolution(24)` tries "+ 5" first and returns "(((1 * 3) + 5) * 3)". */
  lemma FindSolutionExample()
    ensures FindSolution(24) == Some("(((1 * 3) + 5) * 3)")
  {
    assert !Reaches(24, 21) && !Reaches(24, 16) && !Reaches(24, 11);
    assert !Reaches(24, 23) && !Reaches(24, 18) && !Reaches(24, 6);
    assert !Reaches(24, 13);
    var h1 := Record("1", TimesThree);
    var h2 := Record(h1, AddFive);
    var h3 := Record(h2, TimesThree);
    FindSucceedsIff(24, 6, Record("1", AddFive));
    FindSucceedsIff(24, 13, Record(h2, AddFive));
    assert Find(24, 8, h2) == Some(h3);
    assert Find(24, 3, h1) == Some(h3);
    assert h3 == "(((1 * 3) + 5) * 3)";
  }

  // --------------------------------------------------------------- zeroPad

  function Max(a: int, b: int): int { if a < b then b else a }

  /** `zeroPad(number, width)`: put '0' in front of `String(number)` until
      the text is `width` long. */
  method ZeroPad(number: int, width: int) returns (padded: string)
    ensures |padded| == Max(width, |IntToString(number)|)
    ensures padded[|padded| - |IntToString(number)|..] == IntToString(number)
    ensures forall i :: 0 <= i < |padded| - |IntToString(number)| ==> padded[i] == '0'
  {
    padded := IntToString(number);
    ghost var digits := padded;
    while |padded| < width
      invariant |digits| <= |padded| <= Max(width, |digits|)
      invariant padded[|padded| - |digits|..] == digits
      invariant forall i :: 0 <= i < |padded| - |digits| ==> padded[i] == '0'
      decreases width - |padded|
    {
      padded := "0" + padded;
    }
  }

  // --------------------------------------------------------------- roundTo

  function Abs(x: int): nat { if x < 0 then -x else x }

  /** The only multiple of `d` in `[0, |d|)` is zero. */
  lemma ZeroQuotient(k: int, d: int)
    requires d != 0 && 0 <= k * d < Abs(d)
    ensures k == 0
  {
  }

  lemma DivModAny(n: int, d: int)
    requires d != 0
    ensures n == (n / d) * d + n % d && 0 <= n % d < Abs(d)
  {
  }

  lemma MultipleMod(q: int, d: int)
    requires d != 0
    ensures (q * d) % d == 0
  {
    var x := q * d;
    DivModAny(x, d);
    assert x % d == (q - x / d) * d;
    ZeroQuotient(q - x / d, d);
  }

  lemma NextMultiple(x: int, d: int)
    requires d != 0 && x % d == 0
    ensures (x + d) % d == 0
  {
    DivModAny(x, d);
    assert x + d == (x / d + 1) * d;
    MultipleMod(x / d + 1, d);
  }

  /** JavaScript's `n % d` on integers: the remainder keeps the sign of `n`. */
  function JsRemainder(n: int, d: int): (r: int)
    requires d != 0
    ensures Abs(r) < Abs(d)
    ensures n >= 0 ==> r >= 0
    ensures n < 0 ==> r <= 0
    ensures (n - r) % d == 0
  {
    var a, m := Abs(d), Abs(n);
    var q := m / a;
    DivModAny(m, a);
    var sign := if d < 0 then -1 else 1;
    assert q * a == (sign * q) * d;
    MultipleMod(sign * q, d);
    if n >= 0 then
      assert n - m % a == q * a;
      m % a
    else
      MultipleMod(-(sign * q), d);
      assert n - -(m % a) == (-(sign * q)) * d;
      -(m % a)
  }

  /** `roundTo(n, step)` as written: `n - remainder + (remainder < step / 2 ? 0 : step)`. */
  function RoundTo(n: int, step: int): int
    requires step != 0
  {
    var remainder := JsRemainder(n, step);
    n - remainder + (if 2 * remainder < step then 0 else step)
  }

  /** `roundTo(n)` with `step = 1` by default. */
  function RoundToWithDefault(n: int, step: Option<int>): int
    requires step != Some(0)
  {
    match step
    case None => RoundTo(n, 1)
    case Some(s) => RoundTo(n, s)
  }

  /** The result is always a multiple of `step`. */
  lemma RoundToMultiple(n: int, step: int)
    requires step != 0
    ensures RoundTo(n, step) % step == 0
  {
    var remainder := JsRemainder(n, step);
    if 2 * remainder >= step {
      NextMultiple(n - remainder, step);
    }
  }

  /** On non-negative numbers and steps it is the nearest multiple of
      `step`, halves rounding up: `roundTo(23, 10)` is 20. */
  lemma RoundToNearestOnNonNegative(n: int, step: int)
    requires n >= 0 && step > 0
    ensures RoundTo(n, step) == RoundToNearest(n, step)
    ensures -step < 2 * (RoundTo(n, step) - n) <= step
  {
  }

  lemma RoundToExample()
    ensures RoundTo(23, 10) == 20
  {
  }

  /** With the default step an integer is returned unchanged. */
  lemma RoundToDefaultStep(n: int)
    ensures RoundToWithDefault(n, None) == n
  {
    assert JsRemainder(n, 1) == 0;
  }

  /** As written, a negative number moves toward zero whatever its
      remainder, so it is not always rounded to the nearest multiple. */
  lemma RoundToNegativeTowardZero(n: int, step: int)
    requires n < 0 && step > 0
    ensures RoundTo(n, step) == n - JsRemainder(n, step)
    ensures n <= RoundTo(n, step) < n + step
  {
  }

  /** `roundTo(-29, 10)` gives -20, while -30 is a nearer multiple of 10. */
  lemma RoundToNegativeCounterexample()
    ensures RoundTo(-29, 10) == -20
    ensures -30 % 10 == 0 && Abs(-30 - -29) < Abs(RoundTo(-29, 10) - -29)
  {
  }

  /** Rounding to the nearest multiple of a positive `step` for every integer,
      with the floored remainder in place of JavaScript's truncated one. */
  function RoundToNearest(n: int, step: int): (r: int)
    requires step > 0
    ensures r % step == 0
    ensures -step < 2 * (r - n) <= step
  {
    var remainder := n % step;
    DivModAny(n, step);
    MultipleMod(n / step, step);
    if 2 * remainder < step then n - remainder
    else
      NextMultiple(n - remainder, step);
      n - remainder + step
  }

  /** Two different multiples of a positive `step` are at least `step` apart. */
  lemma MultiplesApart(x: int, y: int, step: int)
    requires step > 0 && x % step == 0 && y % step == 0 && x != y
    ensures Abs(x - y) >= step
  {
    DivModAny(x, step);
    DivModAny(y, step);
    var k := x / step - y / step;
    assert x - y == k * step;
  }

  /** No multiple of `step` is nearer to `n` than `RoundToNearest(n, step)`. */
  lemma RoundToNearestIsNearest(n: int, step: int, m: int)
    requires step > 0 && m % step == 0
    ensures Abs(RoundToNearest(n, step) - n) <= Abs(m - n)
  {
    var r := RoundToNearest(n, step);
    if m != r {
      MultiplesApart(m, r, step);
    }
  }

  /** A negative `step` has the same multiples as its magnitude. */
  lemma MultiplesOfMagnitude(x: int, d: int)
    requires d != 0
    ensures x % d == 0 <==> x % Abs(d) == 0
  {
    if d < 0 {
      DivModAny(x, d);
      DivModAny(x, -d);
      if x % d == 0 {
        assert x == (-(x / d)) * (-d);
        MultipleMod(-(x / d), -d);
      }
      if x % (-d) == 0 {
        assert x == (-(x / (-d))) * d;
        MultipleMod(-(x / (-d)), d);
      }
    }
  }

  /** As written, a negative `step` rounds wrongly even for a positive
      number: `roundTo(21, -10)` gives 10, while 20 is a nearer multiple. */
  lemma RoundToNegativeStepCounterexample()
    ensures RoundTo(21, -10) == 10
    ensures 20 % -10 == 0 && Abs(20 - 21) < Abs(RoundTo(21, -10) - 21)
  {
  }

  /** Rounding to the nearest multiple of any non-zero `step`, its sign ignored. */
  function RoundToNearestAnyStep(n: int, step: int): int
    requires step != 0
  {
    RoundToNearest(n, Abs(step))
  }

  /** The corrected rounding gives a multiple of `step`, and no multiple of
      `step` is nearer to `n`, whatever the sign of `step`. */
  lemma RoundToNearestAnyStepIsNearest(n: int, step: int, m: int)
    requires step != 0 && m % step == 0
    ensures RoundToNearestAnyStep(n, step) % step == 0
    ensures Abs(RoundToNearestAnyStep(n, step) - n) <= Abs(m - n)
  {
    MultiplesOfMagnitude(m, step);
    MultiplesOfMagnitude(RoundToNearestAnyStep(n, step), step);
    RoundToNearestIsNearest(n, Abs(step), m);
  }

  // ----------------------------------------------------------------- minus

  /** `minus(a, b)`: `-a` when `b` is missing, else `a - b`. */
  function Minus(a: int, b: Option<int>): int
  {
    match b
    case None => -a
    case Some(b) => a - b
  }

  /** Leaving `b` out subtracts `a` from zero; `minus(10)` is -10 and
      `minus(10, 5)` is 5. */
  lemma MinusOptionalArgument(a: int)
    ensures Minus(a, None) == Minus(0, Some(a))
    ensures Minus(10, None) == -10 && Minus(10, Some(5)) == 5
  {
  }

  // ------------------------------------------------------------ multiplier

  /** `multiplier(factor)` returns `number => number * factor`. */
  function Multiplier(factor: int): int -> int
  {
    number => number * factor
  }

  /** Multipliers compose by multiplying their factors, and `multiplier(1)`
      leaves every number unchanged. */
  lemma MultiplierCompose(a: int, b: int)
    ensures forall number :: Multiplier(a)(Multiplier(b)(number)) == Multiplier(a * b)(number)
    ensures forall number :: Multiplier(1)(number) == number
  {
  }

  /** `multiplier(2)(5)` is 10. */
  lemma MultiplierExample()
    ensures Multiplier(2)(5) == 10
  {
  }
}
