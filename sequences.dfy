/** The hand-written array combinators of the higher-order functions notes:
    `filter`, `map` and `reduce` are loops that push into a fresh array or
    update an accumulator. Each loop is a method proved against a recursive
    specification function; the lemmas state what the specification means. */
module Sequences {
  import opened Wrappers

  // ---------------------------------------------------------------- filter

  /** The elements of `s` that pass `test`, in their original order. */
  function Filtered<T(==)>(s: seq<T>, test: T -> bool): (r: seq<T>)
    ensures |r| <= |s|
    ensures forall i :: 0 <= i < |r| ==> r[i] in s && test(r[i])
    ensures forall i :: 0 <= i < |s| && test(s[i]) ==> s[i] in r
  {
    if s == [] then []
    else
      var front, last := s[..|s| - 1], s[|s| - 1];
      assert s == front + [last];
      Filtered(front, test) + (if test(last) then [last] else [])
  }

  /** Filtering distributes over concatenation: kept elements stay in order. */
  lemma {:induction false} FilteredAppend<T>(a: seq<T>, b: seq<T>, test: T -> bool)
    ensures Filtered(a + b, test) == Filtered(a, test) + Filtered(b, test)
    decreases |b|
  {
    if b == [] {
      assert a + b == a;
    } else {
      var front := b[..|b| - 1];
      assert (a + b)[..|a + b| - 1] == a + front;
      assert (a + b)[|a + b| - 1] == b[|b| - 1];
      FilteredAppend(a, front, test);
    }
  }

  /** Every element is kept as often as it occurs when it passes, never otherwise. */
  lemma {:induction false} FilteredMultiplicity<T>(s: seq<T>, test: T -> bool, x: T)
    ensures multiset(Filtered(s, test))[x] == if test(x) then multiset(s)[x] else 0
  {
    if s != [] {
      var front, last := s[..|s| - 1], s[|s| - 1];
      assert s == front + [last];
      FilteredMultiplicity(front, test, x);
    }
  }

  /** When every element passes, nothing is dropped. */
  lemma {:induction false} FilteredAllPass<T>(s: seq<T>, test: T -> bool)
    requires forall i :: 0 <= i < |s| ==> test(s[i])
    ensures Filtered(s, test) == s
  {
    if s != [] {
      var front := s[..|s| - 1];
      assert s == front + [s[|s| - 1]];
      FilteredAllPass(front, test);
    }
  }

  /** `filter(array, test)`: push every element that passes into a fresh array. */
  method Filter<T(==)>(items: seq<T>, test: T -> bool) returns (passed: seq<T>)
    ensures passed == Filtered(items, test)
  {
    passed := [];
    for i := 0 to |items|
      invariant passed == Filtered(items[..i], test)
    {
      assert items[..i + 1][..i] == items[..i];
      if test(items[i]) {
        passed := passed + [items[i]];
      }
    }
    assert items[..|items|] == items;
  }

  // ------------------------------------------------------------------- map

  /** `transform` applied to every element, position by position. */
  function Mapped<T, U>(s: seq<T>, transform: T -> U): (r: seq<U>)
    ensures |r| == |s|
    ensures forall i :: 0 <= i < |s| ==> r[i] == transform(s[i])
  {
    if s == [] then []
    else Mapped(s[..|s| - 1], transform) + [transform(s[|s| - 1])]
  }

  /** `map(array, transform)`: push the transformed elements into a fresh array. */
  method Map<T, U>(items: seq<T>, transform: T -> U) returns (mapped: seq<U>)
    ensures mapped == Mapped(items, transform)
    ensures |mapped| == |items|
    ensures forall i :: 0 <= i < |items| ==> mapped[i] == transform(items[i])
  {
    mapped := [];
    for i := 0 to |items|
      invariant |mapped| == i
      invariant forall j :: 0 <= j < i ==> mapped[j] == transform(items[j])
    {
      mapped := mapped + [transform(items[i])];
    }
  }

  // ---------------------------------------------------------------- reduce

  /** Left-to-right fold of `combine` over `s`, seeded with `start`. */
  function Folded<T, A>(s: seq<T>, combine: (A, T) -> A, start: A): A
  {
    if s == [] then start
    else combine(Folded(s[..|s| - 1], combine, start), s[|s| - 1])
  }

  /** Folding a concatenation folds the second part from the first part's result. */
  lemma {:induction false} FoldedAppend<T, A>(a: seq<T>, b: seq<T>, combine: (A, T) -> A, start: A)
    ensures Folded(a + b, combine, start) == Folded(b, combine, Folded(a, combine, start))
    decreases |b|
  {
    if b == [] {
      assert a + b == a;
    } else {
      var front := b[..|b| - 1];
      assert (a + b)[..|a + b| - 1] == a + front;
      assert (a + b)[|a + b| - 1] == b[|b| - 1];
      FoldedAppend(a, front, combine, start);
    }
  }

  /** `reduce(array, combine, start)`: update `current` once per element. */
  method Reduce<T, A>(items: seq<T>, combine: (A, T) -> A, start: A) returns (current: A)
    ensures current == Folded(items, combine, start)
  {
    current := start;
    for i := 0 to |items|
      invariant current == Folded(items[..i], combine, start)
    {
      assert items[..i + 1][..i] == items[..i];
      current := combine(current, items[i]);
    }
    assert items[..|items|] == items;
  }

  /** The built-in `array.reduce(combine)` without a start value: the first
      element seeds the fold; an empty array has nothing to reduce (the
      built-in throws a TypeError there). */
  function ReduceWithoutSeed<T>(s: seq<T>, combine: (T, T) -> T): Option<T>
  {
    if s == [] then None else Some(Folded(s[1..], combine, s[0]))
  }

  /** Leaving the seed out is the same as seeding with a left identity, as in
      `[1, 2, 3, 4].reduce((a, b) => a + b)` versus the call seeded with 0. */
  lemma SeedlessIsIdentitySeeded<T>(s: seq<T>, combine: (T, T) -> T, identity: T)
    requires forall x :: combine(identity, x) == x
    requires s != []
    ensures ReduceWithoutSeed(s, combine) == Some(Folded(s, combine, identity))
  {
    assert s == [s[0]] + s[1..];
    FoldedAppend([s[0]], s[1..], combine, identity);
    assert [s[0]][..0] == [];
  }

  function Add(a: int, b: int): int { a + b }

  /** Sum of a sequence of integers, written independently of any fold. */
  function Sum(s: seq<int>): int
  {
    if s == [] then 0 else s[0] + Sum(s[1..])
  }

  lemma {:induction false} SumSnoc(s: seq<int>, x: int)
    ensures Sum(s + [x]) == Sum(s) + x
  {
    if s == [] {
      assert [] + [x] == [x];
    } else {
      assert (s + [x])[1..] == s[1..] + [x];
      SumSnoc(s[1..], x);
    }
  }

  /** Reducing with `(a, b) => a + b` adds the sum of the elements to the seed. */
  lemma {:induction false} FoldedAddIsSum(s: seq<int>, start: int)
    ensures Folded(s, Add, start) == start + Sum(s)
  {
    if s != [] {
      var front := s[..|s| - 1];
      assert s == front + [s[|s| - 1]];
      FoldedAddIsSum(front, start);
      SumSnoc(front, s[|s| - 1]);
    }
  }

  /** Both sums of [1, 2, 3, 4] in the notes give 10. */
  lemma ReduceSumExample()
    ensures Folded([1, 2, 3, 4], Add, 0) == 10
    ensures ReduceWithoutSeed([1, 2, 3, 4], Add) == Some(10)
  {
    FoldedAddIsSum([1, 2, 3, 4], 0);
    SeedlessIsIdentitySeeded([1, 2, 3, 4], Add, 0);
  }

  // ----------------------------------------------------------- greaterThan

  /** `greaterThan(n)` returns the test `m => m > n`. */
  function GreaterThan(n: int): int -> bool
  {
    m => m > n
  }

  /** Used as the test of `filter`, `greaterThan(n)` keeps every element
      above `n` as often as it occurs, and nothing else. */
  lemma FilteredGreaterThan(s: seq<int>, n: int)
    ensures forall i :: 0 <= i < |Filtered(s, GreaterThan(n))| ==> Filtered(s, GreaterThan(n))[i] > n
    ensures forall x :: multiset(Filtered(s, GreaterThan(n)))[x] == if x > n then multiset(s)[x] else 0
  {
    forall x ensures multiset(Filtered(s, GreaterThan(n)))[x] == if x > n then multiset(s)[x] else 0 {
      FilteredMultiplicity(s, GreaterThan(n), x);
    }
  }

  lemma GreaterThanExample()
    ensures GreaterThan(10)(11)
  {
  }
}
