/** The script records of the notes and the functions over them:
    `characterCount`, the two ways of finding the script with the most
    characters (a seedless `reduce` and the `biggest` loop), and
    `characterScript`, which finds the script owning a code point. The
    registry (SCRIPTS) is a parameter: its contents are not part of this model. */
module Scripts {
  import opened Wrappers
  import opened Sequences

  /** A half-open code point interval [from, to). */
  datatype Range = Range(from: int, to: int)

  /** One entry of the script registry. Only `name` and `ranges` take part in
      the algorithms; the rest is carried along. */
  datatype Script = Script(
    name: string,
    ranges: seq<Range>,
    direction: string,
    year: int,
    living: bool,
    link: string)

  // -------------------------------------------------------- characterCount

  /** The combining step of `characterCount`: `count + (to - from)`. */
  function AddWidth(count: int, r: Range): int { count + (r.to - r.from) }

  /** `characterCount(script)`: reduce over the ranges, seeded with 0. */
  function CharacterCount(script: Script): int
  {
    Folded(script.ranges, AddWidth, 0)
  }

  /** Sum of the widths of `ranges`, written independently of the fold. */
  function TotalWidth(ranges: seq<Range>): int
  {
    if ranges == [] then 0 else (ranges[0].to - ranges[0].from) + TotalWidth(ranges[1..])
  }

  lemma {:induction false} TotalWidthSnoc(ranges: seq<Range>, r: Range)
    ensures TotalWidth(ranges + [r]) == TotalWidth(ranges) + (r.to - r.from)
  {
    if ranges == [] {
      assert [] + [r] == [r];
    } else {
      assert (ranges + [r])[1..] == ranges[1..] + [r];
      TotalWidthSnoc(ranges[1..], r);
    }
  }

  lemma {:induction false} FoldedAddWidth(ranges: seq<Range>, start: int)
    ensures Folded(ranges, AddWidth, start) == start + TotalWidth(ranges)
  {
    if ranges != [] {
      var front := ranges[..|ranges| - 1];
      assert ranges == front + [ranges[|ranges| - 1]];
      FoldedAddWidth(front, start);
      TotalWidthSnoc(front, ranges[|ranges| - 1]);
    }
  }

  /** The character count of a script is the summed width of its ranges. */
  lemma CharacterCountIsTotalWidth(script: Script)
    ensures CharacterCount(script) == TotalWidth(script.ranges)
  {
    FoldedAddWidth(script.ranges, 0);
  }

  lemma {:induction false} TotalWidthNonNegative(ranges: seq<Range>)
    requires forall i :: 0 <= i < |ranges| ==> ranges[i].from <= ranges[i].to
    ensures TotalWidth(ranges) >= 0
  {
    if ranges != [] {
      TotalWidthNonNegative(ranges[1..]);
    }
  }

  /** A script whose ranges are all well formed has a non-negative count. */
  lemma CharacterCountNonNegative(script: Script)
    requires forall i :: 0 <= i < |script.ranges| ==> script.ranges[i].from <= script.ranges[i].to
    ensures CharacterCount(script) >= 0
  {
    CharacterCountIsTotalWidth(script);
    TotalWidthNonNegative(script.ranges);
  }

  // ------------------------------------------- the script with most characters

  /** The combining step `characterCount(a) < characterCount(b) ? b : a`. */
  function MoreCharacters(a: Script, b: Script): Script
  {
    if CharacterCount(a) < CharacterCount(b) then b else a
  }

  /** `SCRIPTS.reduce((a, b) => ...)` without a start value. */
  function MostCharacters(scripts: seq<Script>): Option<Script>
  {
    ReduceWithoutSeed(scripts, MoreCharacters)
  }

  /** `scripts[k]` has the largest character count, and every script before
      it has a strictly smaller one: it is the first of the largest. */
  ghost predicate IsFirstLargest(scripts: seq<Script>, k: int)
  {
    && 0 <= k < |scripts|
    && (forall j :: 0 <= j < |scripts| ==> CharacterCount(scripts[j]) <= CharacterCount(scripts[k]))
    && (forall j :: 0 <= j < k ==> CharacterCount(scripts[j]) < CharacterCount(scripts[k]))
  }

  lemma {:induction false} FoldedMoreCharacters(scripts: seq<Script>) returns (k: int)
    requires scripts != []
    ensures IsFirstLargest(scripts, k)
    ensures Folded(scripts[1..], MoreCharacters, scripts[0]) == scripts[k]
  {
    if |scripts| == 1 {
      k := 0;
    } else {
      var front := scripts[..|scripts| - 1];
      var k' := FoldedMoreCharacters(front);
      FoldedLastStep(scripts);
      k := FirstLargestExtend(front, scripts[|scripts| - 1], k');
      assert front + [scripts[|scripts| - 1]] == scripts;
    }
  }

  /** The seedless reduce over `scripts` is one more step after the reduce over all but the last. */
  lemma FoldedLastStep(scripts: seq<Script>)
    requires |scripts| >= 2
    ensures Folded(scripts[1..], MoreCharacters, scripts[0])
         == MoreCharacters(Folded(scripts[1..|scripts| - 1], MoreCharacters, scripts[0]), scripts[|scripts| - 1])
  {
    assert scripts[1..][..|scripts| - 2] == scripts[1..|scripts| - 1];
  }

  /** Comparing the first largest of `front` with one more script gives the
      first largest of the longer list. */
  lemma FirstLargestExtend(front: seq<Script>, last: Script, k': int) returns (k: int)
    requires IsFirstLargest(front, k')
    ensures IsFirstLargest(front + [last], k)
    ensures (front + [last])[k] == MoreCharacters(front[k'], last)
  {
    var scripts := front + [last];
    assert forall j :: 0 <= j < |front| ==> scripts[j] == front[j];
    if CharacterCount(front[k']) < CharacterCount(last) {
      k := |front|;
    } else {
      k := k';
    }
  }

  /** The seedless reduce fails only on an empty registry; otherwise it picks
      the first script with the largest character count. */
  lemma MostCharactersIsFirstLargest(scripts: seq<Script>)
    ensures MostCharacters(scripts).None? <==> scripts == []
    ensures scripts != [] ==>
      exists k :: IsFirstLargest(scripts, k) && MostCharacters(scripts) == Some(scripts[k])
  {
    if scripts != [] {
      var k := FoldedMoreCharacters(scripts);
    }
  }

  /** The `biggest` loop: keep the current script unless a later one has
      strictly more characters. It finds the same script as the reduce. */
  method Biggest(scripts: seq<Script>) returns (biggest: Option<Script>)
    ensures biggest == MostCharacters(scripts)
    ensures biggest.None? <==> scripts == []
    ensures biggest.Some? ==> exists k :: IsFirstLargest(scripts, k) && biggest.value == scripts[k]
  {
    biggest := None;
    for i := 0 to |scripts|
      invariant biggest == MostCharacters(scripts[..i])
    {
      if i > 0 {
        assert scripts[..i + 1][1..][..i - 1] == scripts[..i][1..];
      }
      if biggest.None? || CharacterCount(biggest.value) < CharacterCount(scripts[i]) {
        biggest := Some(scripts[i]);
      }
    }
    assert scripts[..|scripts|] == scripts;
    MostCharactersIsFirstLargest(scripts);
  }

  // ------------------------------------------------------- characterScript

  /** `code >= from && code < to`. */
  predicate InRange(r: Range, code: int) { r.from <= code < r.to }

  /** `script.ranges.some(([from, to]) => code >= from && code < to)`. */
  predicate Covers(script: Script, code: int)
  {
    exists i :: 0 <= i < |script.ranges| && InRange(script.ranges[i], code)
  }

  /** The first script of the registry that covers `code`, if any. */
  function ScriptOf(scripts: seq<Script>, code: int): Option<Script>
  {
    if scripts == [] then None
    else if Covers(scripts[0], code) then Some(scripts[0])
    else ScriptOf(scripts[1..], code)
  }

  ghost predicate IsFirstCovering(scripts: seq<Script>, code: int, k: int)
  {
    && 0 <= k < |scripts|
    && Covers(scripts[k], code)
    && forall j :: 0 <= j < k ==> !Covers(scripts[j], code)
  }

  lemma {:induction false} ScriptOfIsFirstCovering(scripts: seq<Script>, code: int)
    ensures ScriptOf(scripts, code).None? <==>
      forall j :: 0 <= j < |scripts| ==> !Covers(scripts[j], code)
    ensures ScriptOf(scripts, code).Some? ==>
      exists k :: IsFirstCovering(scripts, code, k) && ScriptOf(scripts, code) == Some(scripts[k])
  {
    if scripts != [] && !Covers(scripts[0], code) {
      ScriptOfIsFirstCovering(scripts[1..], code);
      if ScriptOf(scripts[1..], code).Some? {
        var k :| IsFirstCovering(scripts[1..], code, k) && ScriptOf(scripts[1..], code) == Some(scripts[1..][k]);
        assert IsFirstCovering(scripts, code, k + 1);
      }
    } else if scripts != [] {
      assert IsFirstCovering(scripts, code, 0);
    }
  }

  /** A code point inside exactly one script's ranges is classified as that script. */
  lemma ScriptOfUniqueOwner(scripts: seq<Script>, code: int, k: int)
    requires 0 <= k < |scripts| && Covers(scripts[k], code)
    requires forall j :: 0 <= j < |scripts| && j != k ==> !Covers(scripts[j], code)
    ensures ScriptOf(scripts, code) == Some(scripts[k])
  {
    ScriptOfIsFirstCovering(scripts, code);
    var k' :| IsFirstCovering(scripts, code, k') && ScriptOf(scripts, code) == Some(scripts[k']);
    assert k' == k;
  }

  /** `characterScript(code)`: scan the registry in order and return the first
      script with a range holding `code`; `null` (None) when there is none. */
  method CharacterScript(code: int, scripts: seq<Script>) returns (found: Option<Script>)
    ensures found == ScriptOf(scripts, code)
    ensures found.None? <==> forall j :: 0 <= j < |scripts| ==> !Covers(scripts[j], code)
    ensures found.Some? ==> exists k :: IsFirstCovering(scripts, code, k) && found.value == scripts[k]
  {
    ScriptOfIsFirstCovering(scripts, code);
    for i := 0 to |scripts|
      invariant ScriptOf(scripts[i..], code) == ScriptOf(scripts, code)
    {
      assert scripts[i..][1..] == scripts[i + 1..];
      if Covers(scripts[i], code) {
        return Some(scripts[i]);
      }
    }
    return None;
  }
}
