/**
 * The main screen's bottom navigation bar: which destinations get an item, in which
 * order, which item is selected, and what a click on an item asks the navigator to do.
 * The destination list, the back stack and the results of `becomeManager`,
 * `requireNewKernel`, `rootAvailable` and `getKpmVersion` are inputs.
 */
module BottomBar {
  import opened Wrappers
  import opened Strings

  /** An entry of `BottomBarDestination`; `isKpm` marks the KPM entry. */
  datatype Destination = Destination(route: string, isKpm: bool, rootRequired: bool)

  /** A `NavigationBarItem` as laid out: its destination and whether it is selected. */
  datatype BarItem = BarItem(destination: Destination, selected: bool)

  /**
   * `navigator.navigate(route)`, always with popUpTo(root) saving state,
   * `launchSingleTop` and `restoreState`, so only the route varies.
   */
  datatype NavRequest = Navigate(route: string)

  /** The bar's `fullFeatured` flag. */
  predicate FullFeatured(isManager: bool, requireNewKernel: bool, rootAvailable: bool) {
    isManager && !requireNewKernel && rootAvailable
  }

  /** A KPM version string that names a version rather than an error. */
  predicate KpmAvailable(kpmVersion: string) {
    |kpmVersion| > 0 && !StartsWith(kpmVersion, "Error")
  }

  /** The loop body's tests, in the order they are made: does destination d get an item? */
  predicate IsShown(d: Destination, fullFeatured: bool, kpmVersion: string) {
    if d.isKpm then
      if KpmAvailable(kpmVersion) then !(!fullFeatured && d.rootRequired) else false
    else
      !(!fullFeatured && d.rootRequired)
  }

  /**
   * The `forEach` over the destinations: a skipped destination adds nothing, any other
   * adds one item, selected when its route is on the back stack.
   */
  function BarItems(entries: seq<Destination>, fullFeatured: bool, kpmVersion: string,
                    backStack: set<string>): (r: seq<BarItem>)
    ensures |r| <= |entries|
    ensures forall i :: 0 <= i < |r| ==>
      && r[i].destination in entries
      && IsShown(r[i].destination, fullFeatured, kpmVersion)
      && (r[i].selected <==> r[i].destination.route in backStack)
  {
    if entries == [] then []
    else
      var d := entries[0];
      var rest := BarItems(entries[1..], fullFeatured, kpmVersion, backStack);
      if IsShown(d, fullFeatured, kpmVersion) then [BarItem(d, d.route in backStack)] + rest
      else rest
  }

  /** The destinations of a row of items. */
  function Destinations(items: seq<BarItem>): (r: seq<Destination>)
    ensures |r| == |items|
    ensures forall i :: 0 <= i < |r| ==> r[i] == items[i].destination
  {
    if items == [] then [] else [items[0].destination] + Destinations(items[1..])
  }

  /** a is b with some elements left out, the rest in their order. */
  predicate IsSubsequence(a: seq<Destination>, b: seq<Destination>)
    decreases |b|
  {
    if a == [] then true
    else if b == [] then false
    else if a[0] == b[0] then IsSubsequence(a[1..], b[1..])
    else IsSubsequence(a, b[1..])
  }

  /** An item's `onClick`: navigate to its destination unless it is already selected. */
  function OnItemClick(item: BarItem): (r: Option<NavRequest>)
    ensures r.None? <==> item.selected
    ensures r.Some? ==> r.value.route == item.destination.route
  {
    if !item.selected then Some(Navigate(item.destination.route)) else None
  }

  /** The shown destinations keep the order of the entries. */
  lemma {:induction false} BarItemsKeepOrder(entries: seq<Destination>, fullFeatured: bool,
                                             kpmVersion: string, backStack: set<string>)
    ensures IsSubsequence(Destinations(BarItems(entries, fullFeatured, kpmVersion, backStack)), entries)
  {
    if entries != [] {
      var rest := BarItems(entries[1..], fullFeatured, kpmVersion, backStack);
      BarItemsKeepOrder(entries[1..], fullFeatured, kpmVersion, backStack);
      if IsShown(entries[0], fullFeatured, kpmVersion) {
        var r := [BarItem(entries[0], entries[0].route in backStack)] + rest;
        assert r[1..] == rest;
        assert Destinations(r)[1..] == Destinations(rest);
      } else {
        SubsequenceOfTail(Destinations(rest), entries);
      }
    }
  }

  lemma {:induction false} SubsequenceOfTail(a: seq<Destination>, b: seq<Destination>)
    requires b != [] && IsSubsequence(a, b[1..])
    ensures IsSubsequence(a, b)
    decreases |b|, |a|
  {
    if a != [] && a[0] == b[0] {
      if |b| > 1 {
        SubsequenceDropFirst(a, b[1..]);
      }
      assert IsSubsequence(a[1..], b[1..]);
    }
  }

  lemma {:induction false} SubsequenceDropFirst(a: seq<Destination>, b: seq<Destination>)
    requires a != [] && IsSubsequence(a, b)
    ensures IsSubsequence(a[1..], b)
    decreases |b|, |a|
  {
    assert b != [];
    if a[0] == b[0] {
      if b[1..] != [] {
        SubsequenceOfTail(a[1..], b);
      } else {
        assert a[1..] == [];
      }
    } else {
      SubsequenceDropFirst(a, b[1..]);
      SubsequenceOfTail(a[1..], b);
    }
  }

  /**
   * No destination is duplicated or lost: a shown destination has as many items as it
   * has entries, a hidden one none.
   */
  lemma {:induction false} BarItemsCount(entries: seq<Destination>, fullFeatured: bool,
                                         kpmVersion: string, backStack: set<string>, d: Destination)
    ensures multiset(Destinations(BarItems(entries, fullFeatured, kpmVersion, backStack)))[d]
         == if IsShown(d, fullFeatured, kpmVersion) then multiset(entries)[d] else 0
  {
    if entries != [] {
      var rest := BarItems(entries[1..], fullFeatured, kpmVersion, backStack);
      BarItemsCount(entries[1..], fullFeatured, kpmVersion, backStack, d);
      assert entries == [entries[0]] + entries[1..];
      if IsShown(entries[0], fullFeatured, kpmVersion) {
        var r := [BarItem(entries[0], entries[0].route in backStack)] + rest;
        assert r[1..] == rest;
        assert Destinations(r) == [entries[0]] + Destinations(rest);
      }
    }
  }

  /** The visibility rule in terms of the bar's inputs, for the KPM entry and for the others. */
  lemma ShownIff(d: Destination, isManager: bool, requireNewKernel: bool, rootAvailable: bool,
                 kpmVersion: string)
    ensures IsShown(d, FullFeatured(isManager, requireNewKernel, rootAvailable), kpmVersion) <==>
      && (d.isKpm ==> |kpmVersion| > 0 && !StartsWith(kpmVersion, "Error"))
      && ((isManager && !requireNewKernel && rootAvailable) || !d.rootRequired)
  {
  }

  /** Clicking an item of the bar navigates exactly when its route is not on the back stack. */
  lemma ClickNavigatesIffNotOnBackStack(entries: seq<Destination>, fullFeatured: bool,
                                        kpmVersion: string, backStack: set<string>, i: nat)
    requires i < |BarItems(entries, fullFeatured, kpmVersion, backStack)|
    ensures var item := BarItems(entries, fullFeatured, kpmVersion, backStack)[i];
      OnItemClick(item) == if item.destination.route in backStack then None
                           else Some(Navigate(item.destination.route))
  {
  }
}
