# Higher-order functions and small helpers, verified

This project models two JavaScript files of tutorial notes in Dafny and proves
properties of the model.

- **Higher-OrderFunctions_05.js.** The hand-written array combinators
  `filter`, `map` and `reduce`, and `greaterThan`. The script-recognition
  pipeline built on them:
  - `characterCount` sums the widths of a script's Unicode ranges;
  - a `reduce` and the `biggest` loop pick the script with the most
    characters;
  - `characterScript` finds the script whose half-open range `[from, to)`
    holds a code point;
  - `countBy` groups items into `{name, count}` records in first-seen order;
  - `textScripts` turns a text into a profile such as
    "61% Han, 22% Latin, 17% Cyrillic".
- **functions_03.js.** `power`, the `findSolution` puzzle (reach a target
  from 1 by adding 5 or multiplying by 3), `zeroPad`, `roundTo`, `minus` and
  `multiplier`.

Modules:

- `Wrappers` holds `Option`. It stands for JavaScript's `null` and
  `undefined`. It also stands for the TypeError that the built-in `reduce`
  throws on an empty array when no start value is given: `None` in
  `Sequences.ReduceWithoutSeed` and `Scripts.MostCharacters`.
- `Sequences` holds `filter`, `map`, `reduce` and `greaterThan`.
- `Strings` models `String(number)` and `Array.prototype.join`.
- `Scripts` models script records, `characterCount`, the largest script and
  `characterScript`.
- `Grouping` models `countBy`.
- `TextScripts` models `textScripts`.
- `Functions` covers functions_03.js.

Where the JavaScript works by updating variables in a loop, the model is a
Dafny method with the same loop. Those loops are `filter`, `map`, `reduce`,
the `biggest` loop, `characterScript`, `countBy` and `zeroPad`.

- All but `zeroPad` are proved equal to a recursive specification function,
  and the properties are proved about that function.
- `zeroPad` has no such function. Its contract states the result directly:
  its length, its ending and its padding.

The script registry `SCRIPTS` is a parameter of every operation that reads
it. A text is a sequence of Unicode code points.

## Model

| member | source | states |
|---|---|---|
| Sequences.Filtered | Higher-OrderFunctions_05.js:176-184 | the kept elements are input elements that pass `test`; every passing input element is kept; the result is no longer than the input |
| Sequences.FilteredAppend | Higher-OrderFunctions_05.js:176-184 | filtering a concatenation is the concatenation of the filtered parts, so the input order is kept |
| Sequences.FilteredMultiplicity | Higher-OrderFunctions_05.js:176-184 | an element passing `test` occurs in the result exactly as often as in the input; a failing one never occurs |
| Sequences.FilteredAllPass | Higher-OrderFunctions_05.js:176-184 | when every element passes, `filter` returns the input unchanged |
| Sequences.Filter | Higher-OrderFunctions_05.js:176-184 | the `for...of` loop that pushes passing elements computes `Filtered` |
| Sequences.Mapped | Higher-OrderFunctions_05.js:201-207 | the result has the input's length and its i-th element is `transform` of the i-th input |
| Sequences.Map | Higher-OrderFunctions_05.js:201-207 | the push loop computes `Mapped`: the same length and the i-th element `transform(items[i])` |
| Sequences.FoldedAppend | Higher-OrderFunctions_05.js:232-238 | reduce runs left to right: folding `a + b` is folding `b` from the result of folding `a` |
| Sequences.Reduce | Higher-OrderFunctions_05.js:232-238 | the loop `current = combine(current, element)` seeded with `start` computes the left fold |
| Sequences.SeedlessIsIdentitySeeded | Higher-OrderFunctions_05.js:244 | on a non-empty array, `reduce` without a start value (it starts from the first element) equals `reduce` seeded with a left identity of `combine` |
| Sequences.FoldedAddIsSum | Higher-OrderFunctions_05.js:240-242 | reducing with `(a, b) => a + b` from `start` gives `start` plus the sum of the array |
| Sequences.ReduceSumExample | Higher-OrderFunctions_05.js:240-244 | summing [1, 2, 3, 4] gives 10 from seed 0 and also without a seed |
| Sequences.FilteredGreaterThan | Higher-OrderFunctions_05.js:100-101 | used as the test of `filter`, `greaterThan(n)` keeps only elements above `n`, each exactly as often as the input has it |
| Sequences.GreaterThanExample | Higher-OrderFunctions_05.js:104-105 | `greaterThan(10)(11)` is true |
| Strings.NatToString | functions_03.js:558 | `String(n)` for a natural number is a non-empty run of decimal digits with no leading zero |
| Strings.ParseNatToString | functions_03.js:558 | reading the digits of `String(n)` back gives `n` |
| Strings.ParseIntToString | functions_03.js:558 | `String(i)` reads back as `i` for every integer: an optional minus sign, then decimal digits |
| Strings.JoinStartsWithFirstPart | Higher-OrderFunctions_05.js:419-421 | `join` starts with the first part's first character |
| Scripts.FoldedAddWidth | Higher-OrderFunctions_05.js:248-252 | the reduce over ranges adds `to - from` of each range to the seed |
| Scripts.CharacterCountIsTotalWidth | Higher-OrderFunctions_05.js:248-252 | `characterCount` is the sum of `to - from` over the script's ranges |
| Scripts.CharacterCountNonNegative | Higher-OrderFunctions_05.js:248-252 | when every range has `from <= to`, `characterCount` is not negative |
| Scripts.FoldedMoreCharacters | Higher-OrderFunctions_05.js:254-256 | the reduce `characterCount(a) < characterCount(b) ? b : a` ends on the first script whose count is at least every other's |
| Scripts.MostCharactersIsFirstLargest | Higher-OrderFunctions_05.js:254-256 | the reduce-based maximum is missing only for an empty list; otherwise it is the first script with the largest `characterCount` |
| Scripts.Biggest | Higher-OrderFunctions_05.js:271-278 | the `biggest` loop returns what the reduce returns: null only for an empty list, else the first script with the largest count |
| Scripts.ScriptOfIsFirstCovering | Higher-OrderFunctions_05.js:321-330 | the lookup is null exactly when no range of any script holds the code; otherwise it is the first script, in list order, with a range `from <= code < to` |
| Scripts.ScriptOfUniqueOwner | Higher-OrderFunctions_05.js:321-330 | when exactly one script covers the code, that script is returned |
| Scripts.CharacterScript | Higher-OrderFunctions_05.js:321-330 | the loop with early return gives the first covering script, and null exactly when nothing covers the code |
| Grouping.FindGroup | Higher-OrderFunctions_05.js:388 | `counts.find` returns the first record with the given name, and nothing exactly when no record has it |
| Grouping.FirstOccurrences | Higher-OrderFunctions_05.js:382-398 | the group names, in first-seen order, are distinct and are exactly the names that occur |
| Grouping.CountedByNames | Higher-OrderFunctions_05.js:382-398 | the record names are the distinct group names in order of first occurrence |
| Grouping.CountedByCounts | Higher-OrderFunctions_05.js:382-398 | each record's count is at least 1 and equals the number of items in that group |
| Grouping.CountedByTotal | Higher-OrderFunctions_05.js:382-398 | the counts add up to the number of items |
| Grouping.CountBy | Higher-OrderFunctions_05.js:382-398 | the loop that pushes new records and bumps found ones yields the distinct names in first-seen order, counts of at least 1 equal to each group's size, summing to the number of items |
| Grouping.CountedByFiltered | Higher-OrderFunctions_05.js:409-413 | dropping groups by name after counting gives the same records as dropping their items before counting |
| Grouping.CountByExample | Higher-OrderFunctions_05.js:400-401 | `countBy([1, 2, 3, 4, 5], n => n > 2)` is `[{false, 2}, {true, 3}]` |
| TextScripts.RoundedPercent | Higher-OrderFunctions_05.js:420 | `Math.round(count * 100 / total)`: the result is within half a unit of `100 * count / total`, with halves rounded up, and at most 100 when `count <= total` |
| TextScripts.FoldedAddCount | Higher-OrderFunctions_05.js:415 | reducing the groups with `n + count` from 0 sums their counts |
| TextScripts.ClassifiedGroups | Higher-OrderFunctions_05.js:409-415 | once the "none" group is removed, the groups are those of the classified code points only, and their total is the number of such code points |
| TextScripts.ScriptProfileMeaning | Higher-OrderFunctions_05.js:409-421 | "No scripts found" exactly when no code point belongs to a script not named "none"; otherwise one share per script present, in first-seen order, never "none", each percent the rounded share of that script's code points |
| TextScripts.TextScriptsNoneFound | Higher-OrderFunctions_05.js:417 | `textScripts` returns "No scripts found" exactly when no code point of the text is covered by any script not named "none" |
| TextScripts.PercentSumBounds | Higher-OrderFunctions_05.js:419-421 | rounding each group's percent moves the sum of the percents by at most half a unit per group |
| TextScripts.ScriptProfilePercents | Higher-OrderFunctions_05.js:415-421 | a reported profile has at least one share, every percent is at most 100, and the percents add up to 100 give or take half a unit per share |
| Functions.PowerAdd | functions_03.js:424-430 | `power(b, m + n) == power(b, m) * power(b, n)` for the recursive definition |
| Functions.PowerExample | functions_03.js:432 | `power(2, 3)` is 8 |
| Functions.FindOvershoot | functions_03.js:449-450 | `find` returns null once `current` exceeds `target` |
| Functions.EvaluateRecord | functions_03.js:453-454 | a history written as `(h + 5)` or `(h * 3)` evaluates to the value of `h` plus 5 or times 3 |
| Functions.FindSound | functions_03.js:446-458 | any history `find` returns evaluates arithmetically to the target |
| Functions.FindComplete | functions_03.js:446-458 | if some sequence of "+ 5" and "* 3" steps leads from `current` to the target, `find` does not return null |
| Functions.FindWitness | functions_03.js:446-458 | when `find` succeeds, a sequence of steps reaches the target |
| Functions.FindSucceedsIff | functions_03.js:446-458 | whether `find` succeeds depends only on `current` and `target`, not on the history |
| Functions.FindSolutionCorrect | functions_03.js:445-459 | `findSolution(target)` is non-null exactly when the target is reachable from 1, and its answer evaluates to the target |
| Functions.FindSolutionExample | functions_03.js:453-461 | trying "+ 5" before "* 3", `findSolution(24)` is "(((1 * 3) + 5) * 3)" |
| Functions.ZeroPad | functions_03.js:557-563 | the result has length `max(width, String(number).length)`, ends with `String(number)`, and every character in front of it is '0' |
| Functions.JsRemainder | functions_03.js:33 | JavaScript's `n % step` on integers: smaller in magnitude than `step`, with the sign of `n`, and `n` minus it is a multiple of `step` |
| Functions.RoundToMultiple | functions_03.js:30-36 | `roundTo(n, step)` is always a multiple of `step` |
| Functions.RoundToNearestOnNonNegative | functions_03.js:30-36 | for `n >= 0` and `step > 0`, `roundTo` lies within half a step of `n`, halves rounding up, and equals the corrected rounding |
| Functions.RoundToExample | functions_03.js:38-40 | `roundTo(23, 10)` is 20 |
| Functions.RoundToNegativeTowardZero | functions_03.js:30-36 | as written, for `step > 0` a negative `n` always moves toward zero, to `n - (n % step)` |
| Functions.RoundToNegativeCounterexample | functions_03.js:30-36 | `roundTo(-29, 10)` is -20, although -30 is a nearer multiple of 10 |
| Functions.RoundToNearest | functions_03.js:30-36 | the corrected rounding is a multiple of `step` within half a step of `n`, for every integer `n` |
| Functions.RoundToNearestIsNearest | functions_03.js:30-36 | no multiple of `step` is nearer to `n` than the corrected rounding |
| Functions.RoundToNegativeStepCounterexample | functions_03.js:30-36 | as written, `roundTo(21, -10)` is 10, although 20 is a nearer multiple of 10 |
| Functions.RoundToNearestAnyStepIsNearest | functions_03.js:30-36 | rounding to the magnitude of any non-zero `step` gives a multiple of `step`, and no multiple of `step` is nearer to `n` |
| Functions.RoundToDefaultStep | functions_03.js:342-346 | with `step` left out it defaults to 1, and an integer comes back unchanged |
| Functions.MinusOptionalArgument | functions_03.js:327-339 | with `b` missing, `minus(a)` is `0 - a`: `minus(10)` is -10 and `minus(10, 5)` is 5 |
| Functions.MultiplierCompose | functions_03.js:398-402 | applying `multiplier(b)` and then `multiplier(a)` is `multiplier(a * b)`, and `multiplier(1)` leaves every number unchanged |
| Functions.MultiplierExample | functions_03.js:404-407 | `multiplier(2)(5)` is 10 |

Termination of `find` is proved, not stated. `current` starts at 1, so it
stays at least 1. Each step raises it by 5 or triples it, so `target - current`
decreases until the search stops.

## Left out

- Numbers are unbounded integers, so floating point is not modelled. This
  leaves out `roundTo(4.5)` and `roundTo(4.5, 2)`, `average` and the rounded
  average years. It also leaves out large numbers:
  - integers above 2^53 are inexact in JavaScript;
  - `power` can overflow to `Infinity`;
  - from 1e21 on, `String(n)` switches to exponent form (`zeroPad(1e21, 3)`
    is "1e+21"), so `Strings.NatToString` is only faithful below that. `Math.round(count * 100 / total)` is computed exactly in integers as
  `(200 * count + total) / (2 * total)`.
- RoundTo: requires a non-zero `step`. With `step` 0, JavaScript's `%` gives
  NaN, and that is not modelled.
- Power: the exponent is a natural number. A negative or fractional exponent
  makes the source recurse without end.
- Text is a sequence of Unicode code points. UTF-16 code units, surrogate
  pairs and `codePointAt` are not modelled.
- The contents of the `SCRIPTS` table are not shown in the source, so the
  registry is a parameter. For the same reason, the concrete
  "61% Han, 22% Latin, 17% Cyrillic" output is not proved.
- `textScripts` is modelled in two steps. It first builds a structured profile
  (`TextScripts.ScriptProfile`). `TextScripts.Render` then produces the same
  text the source builds with a template string and `join(", ")`.
- `countBy` bumps a found record in place (`known.count++`). The model
  replaces that record in its local sequence. Because the records never
  escape the function before it returns, no aliasing is lost.
- Console output is not modelled: `console.log`, `repeat`, `repeatLog`,
  `noisy`, `unless`, `forEach` and `printFarmInventory`.
- The opening sum loop of Higher-OrderFunctions_05.js is not modelled.
- The `chicken`/`egg` functions of functions_03.js recurse forever on
  purpose, and are not modelled.
- The correlation pipeline (`tableFor`, `phi`, `journalEvents`) lives in
  another chapter of the notes, "Data Structures: Objects and Arrays_04.js",
  so it is not modelled.
- Values are compared with Dafny equality. This stands in for JavaScript's
  `==` in `countBy`'s name lookup and in `find`.

## Findings

| source | as written | input that shows it | evidently intended | confidence | as-written member | corrected member |
|---|---|---|---|---|---|---|
| functions_03.js:30-36 | `n - remainder + (remainder < step / 2 ? 0 : step)`, where JavaScript's `%` keeps the sign of `n` | `roundTo(-29, 10)` returns -20 | the nearest multiple of `step`, which for -29 is -30 | high (from the definition of `%`), not executed | Functions.RoundToNegativeCounterexample | Functions.RoundToNearestIsNearest |
| functions_03.js:30-36 | the same expression with a negative `step`: for `n >= 0` the remainder is at least 0, so `remainder < step / 2` is never true and `step` is always added | `roundTo(21, -10)` returns 10 | the nearest multiple of `step`, which for 21 is 20 | medium (a negative step is an unusual call), not executed | Functions.RoundToNegativeStepCounterexample | Functions.RoundToNearestAnyStepIsNearest |
