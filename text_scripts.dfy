/** `textScripts(text)`: classify every code point of a text with
    `characterScript`, group the script names with `countBy`, drop the
    `"none"` group and report each remaining script's rounded share of the
    classified code points. The text is a sequence of code points. */
module TextScripts {
  import opened Wrappers
  import opened Sequences
  import opened Strings
  import opened Scripts
  import opened Grouping

  /** `script ? script.name : "none"` for the script of `code`. */
  function ScriptName(scripts: seq<Script>, code: int): string
  {
    match ScriptOf(scripts, code)
    case Some(script) => script.name
    case None => "none"
  }

  /** The grouping function handed to `countBy`. */
  function ScriptNamer(scripts: seq<Script>): int -> string
  {
    code => ScriptName(scripts, code)
  }

  function NotNone(name: string): bool { name != "none" }

  /** `({name}) => name != "none"`. */
  function IsClassified(group: Group<string>): bool { NotNone(group.name) }

  /** The code points whose group survives that filter. */
  function Classified(scripts: seq<Script>): int -> bool
  {
    code => NotNone(ScriptName(scripts, code))
  }

  /** `(n, {count}) => n + count`. */
  function AddCount(n: int, group: Group<string>): int { n + group.count }

  /** `Math.round(count * 100 / total)`: the integer nearest to
      100 * count / total, halves rounding up. */
  function RoundedPercent(count: nat, total: int): (percent: nat)
    requires total > 0
    ensures 2 * total * percent <= 200 * count + total < 2 * total * percent + 2 * total
    ensures count <= total ==> percent <= 100
  {
    var percent := (200 * count + total) / (2 * total);
    DivisionBounds(200 * count + total, 2 * total);
    if count <= total then
      assert 2 * total * percent < 2 * total * 101;
      CancelPositive(2 * total, percent, 101);
      percent
    else percent
  }

  /** Quotient bounds of Euclidean division by a positive divisor. */
  lemma DivisionBounds(x: int, d: int)
    requires x >= 0 && d > 0
    ensures x / d >= 0
    ensures d * (x / d) <= x < d * (x / d) + d
  {
  }

  lemma MultiplySuccessor(n: int, t: int)
    ensures (n + 1) * t == n * t + t
  {
  }

  lemma Regroup(t: int, s: int)
    ensures 2 * t * s == t * (2 * s)
  {
  }

  lemma Distribute(a: int, b: int, c: int)
    ensures a * (b + c) == a * b + a * c
  {
  }

  datatype Share = Share(name: string, percent: nat)

  /** What `textScripts` reports, before it is turned into text. */
  datatype Profile = NoScriptsFound | Shares(shares: seq<Share>)

  function ScriptProfile(text: seq<int>, scripts: seq<Script>): Profile
  {
    var groups := Filtered(CountedBy(text, ScriptNamer(scripts)), IsClassified);
    var total := Folded(groups, AddCount, 0);
    FoldedAddCount(groups, 0);
    if total == 0 then NoScriptsFound
    else Shares(Mapped(groups, (g: Group<string>) => Share(g.name, RoundedPercent(g.count, total))))
  }

  /** `${percent}% ${name}`. */
  function ShareText(share: Share): string
  {
    NatToString(share.percent) + "% " + share.name
  }

  function Render(profile: Profile): string
  {
    match profile
    case NoScriptsFound => "No scripts found"
    case Shares(shares) => Join(Mapped(shares, ShareText), ", ")
  }

  /** `textScripts(text)`. */
  function TextScripts(text: seq<int>, scripts: seq<Script>): string
  {
    Render(ScriptProfile(text, scripts))
  }

  // ------------------------------------------------------------ properties

  lemma {:induction false} FoldedAddCount(groups: seq<Group<string>>, start: int)
    ensures Folded(groups, AddCount, start) == start + Total(groups)
  {
    if groups != [] {
      FoldedAddCount(groups[..|groups| - 1], start);
    }
  }

  /** The groups that survive the `"none"` filter are the grouping of the
      classified code points, and they total that many. */
  lemma ClassifiedGroups(text: seq<int>, scripts: seq<Script>)
    ensures Filtered(CountedBy(text, ScriptNamer(scripts)), IsClassified)
         == CountedBy(Filtered(text, Classified(scripts)), ScriptNamer(scripts))
    ensures Folded(Filtered(CountedBy(text, ScriptNamer(scripts)), IsClassified), AddCount, 0)
         == |Filtered(text, Classified(scripts))|
  {
    var classified := Filtered(text, Classified(scripts));
    CountedByFiltered(text, ScriptNamer(scripts), NotNone, IsClassified, Classified(scripts));
    FoldedAddCount(CountedBy(classified, ScriptNamer(scripts)), 0);
    CountedByTotal(classified, ScriptNamer(scripts));
  }

  /** The profile lists the distinct script names of the classified code
      points in first-seen order, each with the rounded percentage of the
      classified code points it names; it is empty exactly when no code point
      is classified. */
  lemma ScriptProfileMeaning(text: seq<int>, scripts: seq<Script>)
    ensures var classified := Filtered(text, Classified(scripts));
      ScriptProfile(text, scripts).NoScriptsFound? <==> classified == []
    ensures var classified := Filtered(text, Classified(scripts));
      var names := FirstOccurrences(Mapped(classified, ScriptNamer(scripts)));
      ScriptProfile(text, scripts).Shares? ==>
        var shares := ScriptProfile(text, scripts).shares;
        && |shares| == |names|
        && forall i :: 0 <= i < |shares| ==>
             && shares[i].name == names[i]
             && shares[i].name != "none"
             && shares[i].percent
                == RoundedPercent(CountKey(text, ScriptNamer(scripts), names[i]), |classified|)
  {
    var namer := ScriptNamer(scripts);
    var classified := Filtered(text, Classified(scripts));
    var names := FirstOccurrences(Mapped(classified, namer));
    ClassifiedGroups(text, scripts);
    var groups := CountedBy(classified, namer);
    if ScriptProfile(text, scripts).Shares? {
      var shares := ScriptProfile(text, scripts).shares;
      CountedByNames(classified, namer);
      CountedByCounts(classified, namer);
      forall i | 0 <= i < |shares|
        ensures shares[i].name == names[i] && shares[i].name != "none"
        ensures shares[i].percent == RoundedPercent(CountKey(text, namer, names[i]), |classified|)
      {
        assert Names(groups)[i] == groups[i].name;
        assert names[i] in Mapped(classified, namer);
        var j :| 0 <= j < |classified| && Mapped(classified, namer)[j] == names[i];
        assert Classified(scripts)(classified[j]);
        CountKeyFiltered(text, namer, NotNone, Classified(scripts), names[i]);
      }
    }
  }

  /** `"No scripts found"` is reported exactly when no code point of the text
      falls in a range of a script not named `"none"`. */
  lemma TextScriptsNoneFound(text: seq<int>, scripts: seq<Script>)
    ensures TextScripts(text, scripts) == "No scripts found"
        <==> forall i :: 0 <= i < |text| ==> ScriptName(scripts, text[i]) == "none"
  {
    var classified := Filtered(text, Classified(scripts));
    ScriptProfileMeaning(text, scripts);
    if forall i :: 0 <= i < |text| ==> ScriptName(scripts, text[i]) == "none" {
    } else {
      var i :| 0 <= i < |text| && ScriptName(scripts, text[i]) != "none";
      assert Classified(scripts)(text[i]);
      assert text[i] in classified;
      var shares := ScriptProfile(text, scripts).shares;
      var names := FirstOccurrences(Mapped(classified, ScriptNamer(scripts)));
      assert Mapped(classified, ScriptNamer(scripts))[0] in names;
      var parts := Mapped(shares, ShareText);
      assert parts[0] == ShareText(shares[0]);
      JoinStartsWithFirstPart(parts, ", ");
      assert IsDigit(parts[0][0]);
    }
  }

  function SumPercents(shares: seq<Share>): int
  {
    if shares == [] then 0 else SumPercents(shares[..|shares| - 1]) + shares[|shares| - 1].percent
  }

  lemma {:induction false} PercentSumBounds(groups: seq<Group<string>>, shares: seq<Share>, total: int)
    requires total > 0 && |shares| == |groups|
    requires forall i :: 0 <= i < |groups| ==> shares[i].percent == RoundedPercent(groups[i].count, total)
    ensures 2 * total * SumPercents(shares) <= 200 * Total(groups) + |groups| * total
    ensures 2 * total * SumPercents(shares) >= 200 * Total(groups) - |groups| * total + |groups|
  {
    if groups != [] {
      var n := |groups|;
      var gf, sf := groups[..n - 1], shares[..n - 1];
      PercentSumBounds(gf, sf, total);
      var d := 2 * total;
      var sum, p, c := SumPercents(sf), shares[n - 1].percent, groups[n - 1].count;
      assert d * p <= 200 * c + total < d * p + d;
      assert SumPercents(shares) == sum + p;
      assert Total(groups) == Total(gf) + c;
      assert |gf| == n - 1;
      assert 2 * total * SumPercents(shares) == d * (sum + p);
      assert 2 * total * SumPercents(sf) == d * sum;
      Distribute(d, sum, p);
      MultiplySuccessor(n - 1, total);
    }
  }

  lemma CancelPositive(t: int, a: int, b: int)
    requires t > 0
    ensures t * a <= t * b ==> a <= b
    ensures t * a > t * b ==> a > b
  {
    if a > b {
      assert t * a - t * b == t * (a - b);
    } else {
      assert t * b - t * a == t * (b - a);
    }
  }

  /** A share of a group among groups totalling `total` is at most 100%. */
  lemma PercentsAtMostHundred(groups: seq<Group<string>>, shares: seq<Share>, total: int)
    requires total == Total(groups) > 0 && |shares| == |groups|
    requires forall i :: 0 <= i < |groups| ==> shares[i].percent == RoundedPercent(groups[i].count, total)
    ensures forall i :: 0 <= i < |shares| ==> shares[i].percent <= 100
  {
    forall i | 0 <= i < |shares| ensures shares[i].percent <= 100 {
      TotalAtLeastMember(groups, i);
    }
  }

  /** Dividing the bounds of `PercentSumBounds` by the positive total. */
  lemma HalfUnitPerShare(total: int, sum: int, n: int)
    requires total > 0
    requires 2 * total * sum <= 200 * total + n * total
    requires 2 * total * sum >= 200 * total - n * total + n
    requires n >= 1
    ensures 200 - n < 2 * sum <= 200 + n
  {
    Regroup(total, sum);
    Distribute(total, 200, n);
    Distribute(total, 200, -n);
    assert total * (2 * sum) <= total * (200 + n);
    assert total * (2 * sum) > total * (200 - n);
    CancelPositive(total, 2 * sum, 200 + n);
    CancelPositive(total, 2 * sum, 200 - n);
  }

  /** Every reported percentage is between 0 and 100, and with n scripts
      reported the percentages add up to 100 give or take n/2, the slack of
      rounding each share on its own. */
  lemma ScriptProfilePercents(text: seq<int>, scripts: seq<Script>)
    ensures ScriptProfile(text, scripts).Shares? ==>
      var shares := ScriptProfile(text, scripts).shares;
      && |shares| >= 1
      && (forall i :: 0 <= i < |shares| ==> shares[i].percent <= 100)
      && 200 - |shares| < 2 * SumPercents(shares) <= 200 + |shares|
  {
    if ScriptProfile(text, scripts).Shares? {
      var groups := Filtered(CountedBy(text, ScriptNamer(scripts)), IsClassified);
      var total := Folded(groups, AddCount, 0);
      var shares := ScriptProfile(text, scripts).shares;
      FoldedAddCount(groups, 0);
      PercentsAtMostHundred(groups, shares, total);
      PercentSumBounds(groups, shares, total);
      HalfUnitPerShare(total, SumPercents(shares), |shares|);
    }
  }

  lemma {:induction false} TotalAtLeastMember(groups: seq<Group<string>>, i: int)
    requires 0 <= i < |groups|
    ensures groups[i].count <= Total(groups)
  {
    if i < |groups| - 1 {
      TotalAtLeastMember(groups[..|groups| - 1], i);
    }
  }
}
