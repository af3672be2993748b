/** `countBy(items, groupName)`: group items by the name a function gives
    them, as a list of `{name, count}` records in order of first occurrence.
    The JavaScript finds the record with `counts.find` and bumps its `count`
    in place; here the list is a local sequence and the bump is an update of
    that one record. */
module Grouping {
  import opened Wrappers
  import opened Sequences

  datatype Group<K> = Group(name: K, count: nat)

  function Names<K>(groups: seq<Group<K>>): seq<K>
  {
    seq(|groups|, i requires 0 <= i < |groups| => groups[i].name)
  }

  ghost predicate Distinct<K>(s: seq<K>)
  {
    forall i, j :: 0 <= i < j < |s| ==> s[i] != s[j]
  }

  /** `counts.find(c => c.name == name)`, as the position of the record found. */
  function FindGroup<K(==)>(groups: seq<Group<K>>, name: K): (index: Option<nat>)
    ensures index.None? <==> forall j :: 0 <= j < |groups| ==> groups[j].name != name
    ensures index.Some? ==>
      && index.value < |groups|
      && groups[index.value].name == name
      && forall j :: 0 <= j < index.value ==> groups[j].name != name
  {
    if groups == [] then None
    else if groups[0].name == name then Some(0)
    else match FindGroup(groups[1..], name)
      case None => None
      case Some(i) => Some(i + 1)
  }

  /** One step of `countBy`: a new record with count 1, or the found record's
      count plus one. */
  function Tally<K(==)>(groups: seq<Group<K>>, name: K): seq<Group<K>>
  {
    match FindGroup(groups, name)
    case None => groups + [Group(name, 1)]
    case Some(i) => groups[i := Group(name, groups[i].count + 1)]
  }

  /** What `countBy(items, groupName)` returns. */
  function CountedBy<T, K(==)>(items: seq<T>, groupName: T -> K): seq<Group<K>>
  {
    if items == [] then []
    else Tally(CountedBy(items[..|items| - 1], groupName), groupName(items[|items| - 1]))
  }

  /** `countBy(items, groupName)`: one pass over the items. */
  method CountBy<T, K(==)>(items: seq<T>, groupName: T -> K) returns (counts: seq<Group<K>>)
    ensures counts == CountedBy(items, groupName)
    ensures Names(counts) == FirstOccurrences(Mapped(items, groupName))
    ensures forall i :: 0 <= i < |counts| ==>
      counts[i].count >= 1 && counts[i].count == CountKey(items, groupName, counts[i].name)
    ensures Total(counts) == |items|
  {
    counts := [];
    for i := 0 to |items|
      invariant counts == CountedBy(items[..i], groupName)
    {
      assert items[..i + 1][..i] == items[..i];
      var name := groupName(items[i]);
      var known := FindGroup(counts, name);
      match known
      case None =>
        counts := counts + [Group(name, 1)];
      case Some(k) =>
        counts := counts[k := Group(name, counts[k].count + 1)];
    }
    assert items[..|items|] == items;
    CountedByNames(items, groupName);
    CountedByCounts(items, groupName);
    CountedByTotal(items, groupName);
  }

  // ------------------------------------------------------- specification

  /** The distinct keys of `keys`, each where it first occurs. */
  function FirstOccurrences<K(==)>(keys: seq<K>): (r: seq<K>)
    ensures Distinct(r)
    ensures forall i :: 0 <= i < |r| ==> r[i] in keys
    ensures forall i :: 0 <= i < |keys| ==> keys[i] in r
  {
    if keys == [] then []
    else
      var front, last := keys[..|keys| - 1], keys[|keys| - 1];
      assert keys == front + [last];
      FirstOccurrences(front) + (if last in front then [] else [last])
  }

  /** How many items `groupName` sends to `key`. */
  function CountKey<T, K(==)>(items: seq<T>, groupName: T -> K, key: K): nat
  {
    if items == [] then 0
    else CountKey(items[..|items| - 1], groupName, key)
         + (if groupName(items[|items| - 1]) == key then 1 else 0)
  }

  /** Sum of the counts. */
  function Total<K>(groups: seq<Group<K>>): nat
  {
    if groups == [] then 0 else Total(groups[..|groups| - 1]) + groups[|groups| - 1].count
  }

  lemma {:induction false} CountKeyAbsent<T, K>(items: seq<T>, groupName: T -> K, key: K)
    requires forall i :: 0 <= i < |items| ==> groupName(items[i]) != key
    ensures CountKey(items, groupName, key) == 0
  {
    if items != [] {
      CountKeyAbsent(items[..|items| - 1], groupName, key);
    }
  }

  lemma {:induction false} TotalBump<K>(groups: seq<Group<K>>, i: nat, g: Group<K>)
    requires i < |groups| && g.count == groups[i].count + 1
    ensures Total(groups[i := g]) == Total(groups) + 1
  {
    var n := |groups|;
    if i < n - 1 {
      assert groups[i := g][..n - 1] == groups[..n - 1][i := g];
      TotalBump(groups[..n - 1], i, g);
    } else {
      assert groups[i := g][..n - 1] == groups[..n - 1];
    }
  }

  lemma NamesAppend<K>(groups: seq<Group<K>>, g: Group<K>)
    ensures Names(groups + [g]) == Names(groups) + [g.name]
  {
  }

  lemma NamesBump<K>(groups: seq<Group<K>>, i: nat, g: Group<K>)
    requires i < |groups| && g.name == groups[i].name
    ensures Names(groups[i := g]) == Names(groups)
  {
  }

  /** Counting one more item is one more step of `Tally`. */
  lemma CountedBySnoc<T, K>(items: seq<T>, x: T, groupName: T -> K)
    ensures CountedBy(items + [x], groupName) == Tally(CountedBy(items, groupName), groupName(x))
  {
    assert (items + [x])[..|items|] == items;
  }

  /** The names `countBy` reports are the distinct keys in first-seen order. */
  lemma {:induction false} CountedByNames<T, K>(items: seq<T>, groupName: T -> K)
    ensures Names(CountedBy(items, groupName)) == FirstOccurrences(Mapped(items, groupName))
  {
    if items != [] {
      var front, last := items[..|items| - 1], items[|items| - 1];
      CountedByNames(front, groupName);
      var c := CountedBy(front, groupName);
      var keys := Mapped(items, groupName);
      assert keys[..|keys| - 1] == Mapped(front, groupName);
      var k := groupName(last);
      assert keys[|keys| - 1] == k;
      match FindGroup(c, k)
      case None =>
        NamesAppend(c, Group(k, 1));
      case Some(i) =>
        NamesBump(c, i, Group(k, c[i].count + 1));
        assert Names(c)[i] == k;
    }
  }

  /** In a list of distinct names, only the record found carries that name. */
  lemma DistinctOthers<K>(groups: seq<Group<K>>, i: nat, k: K)
    requires Distinct(Names(groups)) && i < |groups| && groups[i].name == k
    ensures forall j :: 0 <= j < |groups| && j != i ==> groups[j].name != k
  {
    forall j | 0 <= j < |groups| && j != i ensures groups[j].name != k {
      assert Names(groups)[i] == k;
      if j < i { assert Names(groups)[j] != Names(groups)[i]; } else { assert Names(groups)[i] != Names(groups)[j]; }
    }
  }

  /** A key without a record so far has counted no item. */
  lemma UnseenKey<T, K>(items: seq<T>, groupName: T -> K, k: K)
    requires FindGroup(CountedBy(items, groupName), k).None?
    ensures CountKey(items, groupName, k) == 0
  {
    CountedByNames(items, groupName);
    var c := CountedBy(items, groupName);
    forall j | 0 <= j < |items| ensures groupName(items[j]) != k {
      assert Mapped(items, groupName)[j] == groupName(items[j]);
      var fo := FirstOccurrences(Mapped(items, groupName));
      assert groupName(items[j]) in fo;
      assert fo == Names(c);
    }
    CountKeyAbsent(items, groupName, k);
  }

  /** Every record counts exactly the items sent to its name, and at least one. */
  lemma {:induction false} CountedByCounts<T, K>(items: seq<T>, groupName: T -> K)
    ensures forall i :: 0 <= i < |CountedBy(items, groupName)| ==>
      var g := CountedBy(items, groupName)[i];
      g.count >= 1 && g.count == CountKey(items, groupName, g.name)
  {
    if items != [] {
      var front, last := items[..|items| - 1], items[|items| - 1];
      CountedByCounts(front, groupName);
      var c := CountedBy(front, groupName);
      var k := groupName(last);
      match FindGroup(c, k)
      case None =>
        UnseenKey(front, groupName, k);
      case Some(i) =>
        CountedByNames(front, groupName);
        DistinctOthers(c, i, k);
    }
  }

  /** The counts add up to the number of items. */
  lemma {:induction false} CountedByTotal<T, K>(items: seq<T>, groupName: T -> K)
    ensures Total(CountedBy(items, groupName)) == |items|
  {
    if items != [] {
      var front := items[..|items| - 1];
      CountedByTotal(front, groupName);
      var c := CountedBy(front, groupName);
      var k := groupName(items[|items| - 1]);
      match FindGroup(c, k)
      case None =>
        assert (c + [Group(k, 1)])[..|c|] == c;
      case Some(i) =>
        TotalBump(c, i, Group(k, c[i].count + 1));
    }
  }

  /** Counting a kept key among the kept items is counting it among all items. */
  lemma {:induction false} CountKeyFiltered<T, K>(
    items: seq<T>, groupName: T -> K, keep: K -> bool, keepItem: T -> bool, key: K)
    requires forall x :: keepItem(x) == keep(groupName(x))
    requires keep(key)
    ensures CountKey(Filtered(items, keepItem), groupName, key) == CountKey(items, groupName, key)
  {
    if items != [] {
      var front, last := items[..|items| - 1], items[|items| - 1];
      CountKeyFiltered(front, groupName, keep, keepItem, key);
      var kept := Filtered(front, keepItem);
      if keepItem(last) {
        assert Filtered(items, keepItem) == kept + [last];
        assert (kept + [last])[..|kept|] == kept;
      } else {
        assert Filtered(items, keepItem) == kept;
      }
    }
  }

  /** Dropping records by name after grouping is grouping the items whose name
      is kept. */
  lemma {:induction false} CountedByFiltered<T, K>(
    items: seq<T>, groupName: T -> K,
    keep: K -> bool, keepGroup: Group<K> -> bool, keepItem: T -> bool)
    requires forall g :: keepGroup(g) == keep(g.name)
    requires forall x :: keepItem(x) == keep(groupName(x))
    ensures Filtered(CountedBy(items, groupName), keepGroup)
         == CountedBy(Filtered(items, keepItem), groupName)
  {
    if items != [] {
      var front, last := items[..|items| - 1], items[|items| - 1];
      CountedByFiltered(front, groupName, keep, keepGroup, keepItem);
      var kept := Filtered(front, keepItem);
      var k := groupName(last);
      TallyFiltered(CountedBy(front, groupName), k, keep, keepGroup);
      if keep(k) {
        assert Filtered(items, keepItem) == kept + [last];
        assert (kept + [last])[..|kept|] == kept;
      } else {
        assert Filtered(items, keepItem) == kept;
      }
    }
  }

  lemma TallyFiltered<K>(groups: seq<Group<K>>, k: K, keep: K -> bool, keepGroup: Group<K> -> bool)
    requires forall g :: keepGroup(g) == keep(g.name)
    ensures Filtered(Tally(groups, k), keepGroup)
         == if keep(k) then Tally(Filtered(groups, keepGroup), k) else Filtered(groups, keepGroup)
  {
    var fc := Filtered(groups, keepGroup);
    match FindGroup(groups, k)
    case None =>
      assert Tally(groups, k) == groups + [Group(k, 1)];
      TallyNewFiltered(groups, k, keep, keepGroup);
      if keep(k) {
        assert Tally(fc, k) == fc + [Group(k, 1)];
      }
    case Some(i) =>
      assert Tally(groups, k) == groups[i := Group(k, groups[i].count + 1)];
      TallyBumpFiltered(groups, k, i, keep, keepGroup);
  }

  lemma TallyNewFiltered<K>(groups: seq<Group<K>>, k: K, keep: K -> bool, keepGroup: Group<K> -> bool)
    requires forall g :: keepGroup(g) == keep(g.name)
    requires forall j :: 0 <= j < |groups| ==> groups[j].name != k
    ensures Filtered(groups + [Group(k, 1)], keepGroup)
         == if keep(k) then Filtered(groups, keepGroup) + [Group(k, 1)] else Filtered(groups, keepGroup)
    ensures keep(k) ==> FindGroup(Filtered(groups, keepGroup), k) == None
  {
    var fc := Filtered(groups, keepGroup);
    FilteredAppend(groups, [Group(k, 1)], keepGroup);
    assert [Group(k, 1)][..0] == [];
    forall j | 0 <= j < |fc| ensures fc[j].name != k {
      assert fc[j] in groups;
    }
  }

  lemma TallyBumpFiltered<K>(groups: seq<Group<K>>, k: K, i: nat, keep: K -> bool, keepGroup: Group<K> -> bool)
    requires forall g :: keepGroup(g) == keep(g.name)
    requires i < |groups| && groups[i].name == k
    requires forall j :: 0 <= j < i ==> groups[j].name != k
    ensures Filtered(groups[i := Group(k, groups[i].count + 1)], keepGroup)
         == if keep(k) then Tally(Filtered(groups, keepGroup), k) else Filtered(groups, keepGroup)
  {
    var a, x, b := groups[..i], groups[i], groups[i + 1..];
    var g' := Group(k, x.count + 1);
    assert groups == a + [x] + b;
    assert groups[i := g'] == a + [g'] + b;
    FilteredAround(a, x, b, keepGroup);
    FilteredAround(a, g', b, keepGroup);
    if keep(k) {
      FilteredNamesAvoid(a, keepGroup, k);
      BumpKept(Filtered(a, keepGroup), x, Filtered(b, keepGroup), k);
    }
  }

  lemma BumpKept<K>(fa: seq<Group<K>>, x: Group<K>, fb: seq<Group<K>>, k: K)
    requires forall j :: 0 <= j < |fa| ==> fa[j].name != k
    requires x.name == k
    ensures Tally(fa + [x] + fb, k) == fa + [Group(k, x.count + 1)] + fb
  {
    FindGroupAfter(fa, x, fb, k);
  }

  lemma {:induction false} FilteredNamesAvoid<K>(a: seq<Group<K>>, test: Group<K> -> bool, k: K)
    requires forall j :: 0 <= j < |a| ==> a[j].name != k
    ensures forall j :: 0 <= j < |Filtered(a, test)| ==> Filtered(a, test)[j].name != k
  {
    if a != [] {
      FilteredNamesAvoid(a[..|a| - 1], test, k);
    }
  }

  lemma FilteredAround<T>(a: seq<T>, x: T, b: seq<T>, test: T -> bool)
    ensures Filtered(a + [x] + b, test)
         == Filtered(a, test) + (if test(x) then [x] else []) + Filtered(b, test)
  {
    FilteredAppend(a + [x], b, test);
    FilteredAppend(a, [x], test);
    assert [x][..0] == [];
  }

  lemma FindGroupAfter<K>(a: seq<Group<K>>, x: Group<K>, b: seq<Group<K>>, k: K)
    requires forall j :: 0 <= j < |a| ==> a[j].name != k
    requires x.name == k
    ensures FindGroup(a + [x] + b, k) == Some(|a|)
    ensures Tally(a + [x] + b, k) == a + [Group(k, x.count + 1)] + b
  {
    var s := a + [x] + b;
    assert s[|a|] == x;
    assert s[|a| := Group(k, x.count + 1)] == a + [Group(k, x.count + 1)] + b;
  }

  /** The first three items give one `false` record of 2 and one `true` record of 1. */
  lemma CountByExamplePrefix()
    ensures CountedBy([1, 2, 3], GreaterThan(2)) == [Group(false, 2), Group(true, 1)]
  {
    var g := GreaterThan(2);
    CountedBySnoc([], 1, g);
    assert [] + [1] == [1];
    CountedBySnoc([1], 2, g);
    assert [1] + [2] == [1, 2];
    CountedBySnoc([1, 2], 3, g);
    assert [1, 2] + [3] == [1, 2, 3];
    assert CountedBy([1], g) == [Group(false, 1)];
    assert CountedBy([1, 2], g) == [Group(false, 2)];
    assert FindGroup([Group(false, 2)], true) == None;
  }

  /** `countBy([1, 2, 3, 4, 5], n => n > 2)` is `[{false, 2}, {true, 3}]`. */
  lemma CountByExample()
    ensures CountedBy([1, 2, 3, 4, 5], GreaterThan(2)) == [Group(false, 2), Group(true, 3)]
  {
    var g := GreaterThan(2);
    CountByExamplePrefix();
    CountedBySnoc([1, 2, 3], 4, g);
    assert [1, 2, 3] + [4] == [1, 2, 3, 4];
    CountedBySnoc([1, 2, 3, 4], 5, g);
    assert [1, 2, 3, 4] + [5] == [1, 2, 3, 4, 5];
    assert FindGroup([Group(false, 2), Group(true, 1)], true) == Some(1);
    assert CountedBy([1, 2, 3, 4], g) == [Group(false, 2), Group(true, 2)];
    assert FindGroup([Group(false, 2), Group(true, 2)], true) == Some(1);
  }
}
