/**
Ordered marker scenarios: validation of the marker list, and the selection and ordering of the
collected items by the one marker each of them has.
*/
module Markers {
  import opened Sequences

  // ----- Validation of the marker list -----

  function StripAll(values: seq<string>): (r: seq<string>)
    ensures |r| == |values|
  {
    seq(|values|, i requires 0 <= i < |values| => Strip(values[i]))
  }

  predicate IsLetter(c: char) { 'a' <= c <= 'z' || 'A' <= c <= 'Z' || c == '_' }

  predicate IsMarkerName(s: string) {
    s != "" && IsLetter(s[0]) && forall i :: 0 <= i < |s| ==> IsLetter(s[i]) || '0' <= s[i] <= '9'
  }

  /** Position j repeats an earlier value, and no position before it does. */
  predicate FirstRepeatAt(values: seq<string>, j: nat, value: string)
    requires j < |values|
  {
    values[j] == value && value in values[..j] && Distinct(values[..j])
  }

  /** The first value that has occurred before. */
  method FirstDuplicate(values: seq<string>) returns (r: Option<string>)
    ensures r.None? <==> Distinct(values)
    ensures r.Some? ==> (exists j :: 0 <= j < |values| && FirstRepeatAt(values, j, r.value))
  {
    var seen: set<string> := {};
    for i := 0 to |values|
      invariant forall v :: v in seen <==> v in values[..i]
      invariant Distinct(values[..i])
    {
      var value := values[i];
      if value in seen {
        assert FirstRepeatAt(values, i, value);
        return Some(value);
      }
      seen := seen + {value};
      assert values[..i + 1] == values[..i] + [value];
    }
    assert values[..|values|] == values;
    return None;
  }

  datatype Validation = Markers(markers: seq<string>) | NoMarker | InvalidName(name: string) | Duplicate(name: string)

  predicate FirstInvalidAt(markers: seq<string>, i: nat, name: string)
    requires i < |markers|
  {
    markers[i] == name && !IsMarkerName(name) && forall k :: 0 <= k < i ==> IsMarkerName(markers[k])
  }

  /** The list is accepted exactly when it is non-empty and its stripped names are valid and distinct. */
  method ValidateMarkers(values: seq<string>) returns (r: Validation)
    ensures r.Markers? <==>
      values != [] && Distinct(StripAll(values)) && forall m :: m in StripAll(values) ==> IsMarkerName(m)
    ensures r.Markers? ==> r.markers == StripAll(values)
    ensures r.NoMarker? <==> values == []
    ensures r.InvalidName? ==> (exists i :: 0 <= i < |values| && FirstInvalidAt(StripAll(values), i, r.name))
    ensures r.Duplicate? ==> (exists j :: 0 <= j < |values| && FirstRepeatAt(StripAll(values), j, r.name))
    ensures r.Duplicate? ==> forall m :: m in StripAll(values) ==> IsMarkerName(m)
  {
    hide Strip, IsMarkerName;
    var markers := StripAll(values);
    if markers == [] {
      return NoMarker;
    }
    for i := 0 to |markers|
      invariant forall k :: 0 <= k < i ==> IsMarkerName(markers[k])
    {
      if !IsMarkerName(markers[i]) {
        assert FirstInvalidAt(markers, i, markers[i]);
        return InvalidName(markers[i]);
      }
    }
    var duplicate := FirstDuplicate(markers);
    return if duplicate.Some? then Duplicate(duplicate.value) else Markers(markers);
  }

  // ----- Ordering the collected items -----

  datatype Item = Item(nodeId: string, markers: set<string>)

  /** The scenario markers that an item has, in scenario order. */
  function Matching(item: Item, sequence: seq<string>): (r: seq<string>)
    ensures forall m :: m in r ==> m in sequence && m in item.markers
    ensures forall m :: m in sequence && m in item.markers ==> m in r
    ensures |r| <= |sequence|
  {
    if sequence == [] then []
    else (if sequence[0] in item.markers then [sequence[0]] else []) + Matching(item, sequence[1..])
  }

  /** The items that have this marker, in collection order. */
  function Having(items: seq<Item>, marker: string): seq<Item> {
    if items == [] then []
    else
      var last := items[|items| - 1];
      Having(items[..|items| - 1], marker) + if marker in last.markers then [last] else []
  }

  /** The items of the first marker, then those of the second, and so on. */
  function Groups(items: seq<Item>, sequence: seq<string>): seq<Item> {
    if sequence == [] then [] else Having(items, sequence[0]) + Groups(items, sequence[1..])
  }

  function Unmatched(items: seq<Item>, sequence: seq<string>): seq<Item> {
    if items == [] then []
    else
      var last := items[|items| - 1];
      Unmatched(items[..|items| - 1], sequence) + if Matching(last, sequence) == [] then [last] else []
  }

  lemma HavingSnoc(items: seq<Item>, item: Item, marker: string)
    ensures Having(items + [item], marker) == Having(items, marker) + if marker in item.markers then [item] else []
  {
    assert (items + [item])[..|items|] == items;
  }

  lemma UnmatchedSnoc(items: seq<Item>, item: Item, sequence: seq<string>)
    ensures Unmatched(items + [item], sequence)
      == Unmatched(items, sequence) + if Matching(item, sequence) == [] then [item] else []
  {
    assert (items + [item])[..|items|] == items;
  }

  /** No item belongs to two steps. */
  predicate Exclusive(items: seq<Item>, sequence: seq<string>) {
    forall k :: 0 <= k < |items| ==> |Matching(items[k], sequence)| <= 1
  }

  /** Every step has an item. */
  predicate Covered(items: seq<Item>, sequence: seq<string>) {
    forall k :: 0 <= k < |sequence| ==> Having(items, sequence[k]) != []
  }

  /** The first item that belongs to two steps. */
  predicate FirstConflictAt(items: seq<Item>, sequence: seq<string>, i: nat, item: Item)
    requires i < |items|
  {
    items[i] == item && |Matching(item, sequence)| > 1 && Exclusive(items[..i], sequence)
  }

  /** The first step without an item. */
  predicate FirstEmptyAt(items: seq<Item>, sequence: seq<string>, i: nat, marker: string)
    requires i < |sequence|
  {
    sequence[i] == marker && Having(items, marker) == [] && Covered(items, sequence[..i])
  }

  predicate GroupedBy(grouped: map<string, seq<Item>>, rest: seq<Item>, items: seq<Item>, sequence: seq<string>) {
    && grouped.Keys == (set m | m in sequence)
    && (forall m :: m in sequence ==> grouped[m] == Having(items, m))
    && rest == Unmatched(items, sequence)
  }

  lemma UnmatchedNil(items: seq<Item>, sequence: seq<string>)
    requires items == []
    ensures Unmatched(items, sequence) == []
  {
  }

  lemma GroupsFirst(items: seq<Item>, sequence: seq<string>)
    requires sequence != []
    ensures Groups(items, sequence) == Having(items, sequence[0]) + Groups(items, sequence[1..])
  {
  }

  lemma GroupedNil(grouped: map<string, seq<Item>>, items: seq<Item>, sequence: seq<string>)
    requires items == [] && grouped == map m | m in sequence :: []
    ensures GroupedBy(grouped, [], items, sequence)
  {
  }

  lemma GroupedSnoc(
    grouped: map<string, seq<Item>>, rest: seq<Item>, items: seq<Item>, item: Item, sequence: seq<string>
  )
    requires GroupedBy(grouped, rest, items, sequence)
    requires |Matching(item, sequence)| <= 1
    ensures Matching(item, sequence) == [] ==> GroupedBy(grouped, rest + [item], items + [item], sequence)
    ensures
      var matching := Matching(item, sequence);
      matching != [] ==>
        GroupedBy(grouped[matching[0] := grouped[matching[0]] + [item]], rest, items + [item], sequence)
  {
    hide Matching, Having, Unmatched;
    UnmatchedSnoc(items, item, sequence);
    forall m | m in sequence
      ensures Having(items + [item], m) == Having(items, m) + if m in item.markers then [item] else []
    {
      HavingSnoc(items, item, m);
    }
  }

  datatype Outcome = Ordered | MultipleSteps(item: Item) | EmptyMarker(marker: string)

  class Session {
    var items: seq<Item>
    var deselected: seq<Item>

    constructor (collected: seq<Item>)
      ensures items == collected && deselected == []
    {
      items, deselected := collected, [];
    }

    /** Distribute the items over the steps; the result is an item of two steps when there is one. */
    method Group(sequence: seq<string>)
      returns (grouped: map<string, seq<Item>>, rest: seq<Item>, conflict: Option<Item>)
      ensures conflict.None? <==> Exclusive(items, sequence)
      ensures conflict.Some? ==> (exists i :: 0 <= i < |items| && FirstConflictAt(items, sequence, i, conflict.value))
      ensures conflict.None? ==> GroupedBy(grouped, rest, items, sequence)
    {
      hide GroupedBy, Having, Unmatched, Matching;
      grouped, rest := map m | m in sequence :: [], [];
      GroupedNil(grouped, items[..0], sequence);
      for i := 0 to |items|
        invariant grouped.Keys == (set m | m in sequence)
        invariant GroupedBy(grouped, rest, items[..i], sequence)
        invariant Exclusive(items[..i], sequence)
      {
        var item := items[i];
        var matching := Matching(item, sequence);
        if |matching| > 1 {
          assert FirstConflictAt(items, sequence, i, item);
          return grouped, rest, Some(item);
        }
        GroupedSnoc(grouped, rest, items[..i], item, sequence);
        assert items[..i + 1] == items[..i] + [item];
        if matching != [] {
          assert matching[0] in grouped.Keys;
          grouped := grouped[matching[0] := grouped[matching[0]] + [item]];
        } else {
          rest := rest + [item];
        }
      }
      assert items[..|items|] == items;
      conflict := None;
    }

    /**
    Select and order the items. It fails exactly when some item has two of the markers, or else some
    marker has no item; then it reports the first such item or marker and changes nothing.
    */
    method ApplyMarkerSequence(sequence: seq<string>) returns (r: Outcome)
      modifies this
      ensures r.MultipleSteps? <==> !Exclusive(old(items), sequence)
      ensures r.MultipleSteps? ==>
        (exists i :: 0 <= i < |old(items)| && FirstConflictAt(old(items), sequence, i, r.item))
      ensures r.EmptyMarker? <==> Exclusive(old(items), sequence) && !Covered(old(items), sequence)
      ensures r.EmptyMarker? ==>
        (exists i :: 0 <= i < |sequence| && FirstEmptyAt(old(items), sequence, i, r.marker))
      ensures !r.Ordered? ==> unchanged(this)
      ensures r.Ordered? ==>
        && items == Groups(old(items), sequence)
        && (var rest := Unmatched(old(items), sequence); deselected == if rest != [] then rest else old(deselected))
    {
      hide Matching, Having, Unmatched, Groups, Exclusive;
      var grouped, rest, conflict := Group(sequence);
      if conflict.Some? {
        return MultipleSteps(conflict.value);
      }
      for i := 0 to |sequence|
        invariant unchanged(this)
        invariant forall k :: 0 <= k < i ==> Having(items, sequence[k]) != []
      {
        if grouped[sequence[i]] == [] {
          assert FirstEmptyAt(items, sequence, i, sequence[i]);
          return EmptyMarker(sequence[i]);
        }
      }
      if rest != [] {
        deselected := rest;
      }
      items := InOrder(items, grouped, sequence);
      return Ordered;
    }
  }

  /** The concatenation of the groups, step by step. */
  method InOrder(ghost items: seq<Item>, grouped: map<string, seq<Item>>, sequence: seq<string>)
    returns (ordered: seq<Item>)
    requires forall m :: m in sequence ==> m in grouped && grouped[m] == Having(items, m)
    ensures ordered == Groups(items, sequence)
  {
    hide Having;
    ordered := [];
    for i := 0 to |sequence|
      invariant ordered + Groups(items, sequence[i..]) == Groups(items, sequence)
    {
      assert sequence[i..][0] == sequence[i] && sequence[i..][1..] == sequence[i + 1..];
      ordered := ordered + grouped[sequence[i]];
    }
  }

  // ----- What the order is -----

  /** The position of the first marker that the item has; the length when it has none. */
  function Step(item: Item, sequence: seq<string>): (k: nat)
    ensures k <= |sequence|
    ensures k < |sequence| ==> sequence[k] in item.markers
    ensures forall j :: 0 <= j < k ==> sequence[j] !in item.markers
  {
    if sequence == [] || sequence[0] in item.markers then 0 else 1 + Step(item, sequence[1..])
  }

  /** An item of at most one step has only that step's marker. */
  lemma {:induction false} OneStep(item: Item, sequence: seq<string>)
    requires |Matching(item, sequence)| <= 1
    ensures forall j :: 0 <= j < |sequence| && sequence[j] in item.markers ==> j == Step(item, sequence)
    ensures Matching(item, sequence) == [] <==> Step(item, sequence) == |sequence|
  {
    if sequence != [] {
      var rest := sequence[1..];
      OneStep(item, rest);
      forall j | 0 <= j < |sequence| && sequence[j] in item.markers
        ensures j == Step(item, sequence)
      {
        if j > 0 {
          assert rest[j - 1] == sequence[j];
        }
      }
    }
  }

  lemma {:induction false} HavingIsMember(items: seq<Item>, marker: string)
    ensures forall x :: x in Having(items, marker) <==> x in items && marker in x.markers
  {
    if items != [] {
      HavingIsMember(items[..|items| - 1], marker);
      assert items == items[..|items| - 1] + [items[|items| - 1]];
    }
  }

  lemma {:induction false} HavingConcat(a: seq<Item>, b: seq<Item>, marker: string)
    ensures Having(a + b, marker) == Having(a, marker) + Having(b, marker)
  {
    if b == [] {
      assert a + b == a;
    } else {
      assert (a + b)[..|a + b| - 1] == a + b[..|b| - 1];
      HavingConcat(a, b[..|b| - 1], marker);
    }
  }

  lemma {:induction false} HavingAll(items: seq<Item>, marker: string)
    requires forall x :: x in items ==> marker in x.markers
    ensures Having(items, marker) == items
  {
    if items != [] {
      assert items == items[..|items| - 1] + [items[|items| - 1]];
      HavingAll(items[..|items| - 1], marker);
    }
  }

  lemma {:induction false} HavingNone(items: seq<Item>, marker: string)
    requires forall x :: x in items ==> marker !in x.markers
    ensures Having(items, marker) == []
  {
    if items != [] {
      HavingNone(items[..|items| - 1], marker);
    }
  }

  lemma {:induction false} GroupsMembers(items: seq<Item>, sequence: seq<string>)
    ensures forall x :: x in Groups(items, sequence) ==> x in items && Matching(x, sequence) != []
  {
    if sequence != [] {
      HavingIsMember(items, sequence[0]);
      GroupsMembers(items, sequence[1..]);
    }
  }

  /** A return means that no marker was listed twice. */
  lemma CoveredMarkersAreDistinct(items: seq<Item>, sequence: seq<string>)
    requires Exclusive(items, sequence) && Covered(items, sequence)
    ensures Distinct(sequence)
  {
    forall i, j | 0 <= i < j < |sequence|
      ensures sequence[i] != sequence[j]
    {
      var item := Having(items, sequence[j])[0];
      HavingIsMember(items, sequence[j]);
      OneStep(item, sequence);
    }
  }

  predicate Sorted(r: seq<Item>, sequence: seq<string>) {
    forall i, j :: 0 <= i < j < |r| ==> Step(r[i], sequence) <= Step(r[j], sequence)
  }

  /** The selected items in the order of their steps, with the items of one step in collection order. */
  predicate IsStableSort(r: seq<Item>, items: seq<Item>, sequence: seq<string>) {
    && (forall x :: x in r ==> x in items && Matching(x, sequence) != [])
    && Sorted(r, sequence)
    && (forall k :: 0 <= k < |sequence| ==> Having(r, sequence[k]) == Having(items, sequence[k]))
  }

  lemma StepFirst(item: Item, sequence: seq<string>)
    requires sequence != []
    ensures Step(item, sequence) == if sequence[0] in item.markers then 0 else 1 + Step(item, sequence[1..])
  {
  }

  lemma SortedConcat(first: seq<Item>, others: seq<Item>, sequence: seq<string>)
    requires forall x :: x in first ==> Step(x, sequence) == 0
    requires Sorted(others, sequence)
    ensures Sorted(first + others, sequence)
  {
    hide Step;
    var r := first + others;
    forall i, j | 0 <= i < j < |r|
      ensures Step(r[i], sequence) <= Step(r[j], sequence)
    {
      if i < |first| {
        assert r[i] in first;
      }
    }
  }

  lemma {:induction false} GroupsSorted(items: seq<Item>, sequence: seq<string>)
    requires Exclusive(items, sequence)
    ensures Sorted(Groups(items, sequence), sequence)
  {
    hide Having, Groups, Matching, Step;
    if sequence == [] {
      GroupsNone(items, sequence);
    } else {
      var rest := sequence[1..];
      var first, others := Having(items, sequence[0]), Groups(items, rest);
      GroupsFirst(items, sequence);
      ExclusiveRest(items, sequence);
      GroupsSorted(items, rest);
      HavingIsMember(items, sequence[0]);
      GroupsMembers(items, rest);
      forall x | x in first
        ensures Step(x, sequence) == 0
      {
        StepFirst(x, sequence);
      }
      forall x | x in others
        ensures Step(x, sequence) == 1 + Step(x, rest)
      {
        StepFirst(x, sequence);
        RestMeansLater(x, sequence);
      }
      SortedConcat(first, others, sequence);
    }
  }

  lemma RestMeansLater(item: Item, sequence: seq<string>)
    requires sequence != [] && |Matching(item, sequence)| <= 1 && Matching(item, sequence[1..]) != []
    ensures sequence[0] !in item.markers
  {
  }

  lemma {:induction false} GroupsKeepEachStep(items: seq<Item>, sequence: seq<string>, k: nat)
    requires Exclusive(items, sequence) && Distinct(sequence) && k < |sequence|
    ensures Having(Groups(items, sequence), sequence[k]) == Having(items, sequence[k])
  {
    hide Having, Matching, Groups, Step;
    var m, rest := sequence[k], sequence[1..];
    var first, others := Having(items, sequence[0]), Groups(items, rest);
    GroupsFirst(items, sequence);
    HavingConcat(first, others, m);
    HavingIsMember(items, sequence[0]);
    GroupsMembers(items, rest);
    ExclusiveRest(items, sequence);
    forall x | x in items
      ensures sequence[0] in x.markers && m in x.markers ==> k == 0
      ensures Matching(x, rest) != [] ==> sequence[0] !in x.markers
    {
      OneStep(x, sequence);
      if Matching(x, rest) != [] {
        RestMeansLater(x, sequence);
      }
    }
    if k == 0 {
      HavingAll(first, m);
      HavingNone(others, m);
    } else {
      HavingNone(first, m);
      assert rest[k - 1] == m;
      GroupsKeepEachStep(items, rest, k - 1);
    }
  }

  lemma ExclusiveRest(items: seq<Item>, sequence: seq<string>)
    requires Exclusive(items, sequence) && sequence != []
    ensures Exclusive(items, sequence[1..])
  {
    forall k | 0 <= k < |items|
      ensures |Matching(items[k], sequence[1..])| <= 1
    {
      assert |Matching(items[k], sequence)| <= 1;
    }
  }

  /** An item whose step is not before that of any other item goes last. */
  lemma {:induction false} GroupsSnocLast(items: seq<Item>, last: Item, sequence: seq<string>, k: nat)
    requires k < |sequence| && sequence[k] in last.markers
    requires forall j :: 0 <= j < |sequence| && sequence[j] in last.markers ==> j == k
    requires forall x, j :: x in items && k < j < |sequence| ==> sequence[j] !in x.markers
    ensures Groups(items + [last], sequence) == Groups(items, sequence) + [last]
  {
    hide Having, Matching;
    var rest := sequence[1..];
    HavingSnoc(items, last, sequence[0]);
    if k == 0 {
      assert sequence[0] in last.markers;
      GroupsNone(items, rest);
      GroupsNone(items + [last], rest);
    } else {
      assert sequence[0] !in last.markers;
      GroupsSnocLast(items, last, rest, k - 1);
    }
  }

  lemma {:induction false} GroupsNone(items: seq<Item>, sequence: seq<string>)
    requires forall x, j :: x in items && 0 <= j < |sequence| ==> sequence[j] !in x.markers
    ensures Groups(items, sequence) == []
  {
    if sequence != [] {
      HavingNone(items, sequence[0]);
      GroupsNone(items, sequence[1..]);
    }
  }

  /** Grouping leaves items alone that are in order already. */
  lemma {:induction false} GroupsOfSorted(r: seq<Item>, sequence: seq<string>)
    requires Exclusive(r, sequence) && Sorted(r, sequence)
    requires forall x :: x in r ==> Matching(x, sequence) != []
    ensures Groups(r, sequence) == r
  {
    hide Having, Groups, Matching, Step;
    if r == [] {
      GroupsNone(r, sequence);
    } else {
      var prior, last := r[..|r| - 1], r[|r| - 1];
      assert r == prior + [last];
      GroupsOfSorted(prior, sequence);
      OneStep(last, sequence);
      assert last in r;
      forall x, j | x in prior && Step(last, sequence) < j < |sequence|
        ensures sequence[j] !in x.markers
      {
        var i :| 0 <= i < |prior| && prior[i] == x;
        assert r[i] == x;
        OneStep(x, sequence);
      }
      GroupsSnocLast(prior, last, sequence, Step(last, sequence));
    }
  }

  lemma {:induction false} GroupsDependOnSteps(a: seq<Item>, b: seq<Item>, sequence: seq<string>)
    requires forall k :: 0 <= k < |sequence| ==> Having(a, sequence[k]) == Having(b, sequence[k])
    ensures Groups(a, sequence) == Groups(b, sequence)
  {
    hide Having;
    if sequence != [] {
      assert Having(a, sequence[0]) == Having(b, sequence[0]);
      forall k | 0 <= k < |sequence| - 1
        ensures Having(a, sequence[1..][k]) == Having(b, sequence[1..][k])
      {
        assert Having(a, sequence[k + 1]) == Having(b, sequence[k + 1]);
      }
      GroupsDependOnSteps(a, b, sequence[1..]);
    }
  }

  /** The items after a return are the stable sort of the selected items by step, and nothing else is. */
  lemma OrderIsTheStableSort(items: seq<Item>, sequence: seq<string>, r: seq<Item>)
    requires Exclusive(items, sequence) && Covered(items, sequence)
    ensures r == Groups(items, sequence) <==> IsStableSort(r, items, sequence)
  {
    hide Having, Groups, Matching, Step;
    CoveredMarkersAreDistinct(items, sequence);
    GroupsMembers(items, sequence);
    GroupsSorted(items, sequence);
    forall k | 0 <= k < |sequence|
      ensures Having(Groups(items, sequence), sequence[k]) == Having(items, sequence[k])
    {
      GroupsKeepEachStep(items, sequence, k);
    }
    if IsStableSort(r, items, sequence) {
      forall k | 0 <= k < |r|
        ensures |Matching(r[k], sequence)| <= 1
      {
        assert r[k] in items;
      }
      GroupsOfSorted(r, sequence);
      GroupsDependOnSteps(r, items, sequence);
    }
  }

  lemma {:induction false} GroupsAddOne(items: seq<Item>, item: Item, sequence: seq<string>)
    requires |Matching(item, sequence)| <= 1
    ensures multiset(Groups(items + [item], sequence))
      == multiset(Groups(items, sequence)) + if Matching(item, sequence) == [] then multiset{} else multiset{item}
  {
    hide Having;
    if sequence != [] {
      HavingSnoc(items, item, sequence[0]);
      GroupsAddOne(items, item, sequence[1..]);
    }
  }

  /** Selecting loses and doubles no item: the selected and the deselected items are the collected ones. */
  lemma {:induction false} NothingIsLost(items: seq<Item>, sequence: seq<string>)
    requires Exclusive(items, sequence)
    ensures multiset(Groups(items, sequence)) + multiset(Unmatched(items, sequence)) == multiset(items)
  {
    hide Having, Groups, Matching, Unmatched;
    if items == [] {
      GroupsNone(items, sequence);
      UnmatchedNil(items, sequence);
    } else {
      var prior, last := items[..|items| - 1], items[|items| - 1];
      assert items == prior + [last];
      assert |Matching(last, sequence)| <= 1;
      NothingIsLost(prior, sequence);
      GroupsAddOne(prior, last, sequence);
      UnmatchedSnoc(prior, last, sequence);
    }
  }
}
