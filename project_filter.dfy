/**
 * The project grid: every project item has a fixed category and a `hide` class; every
 * filter button has a fixed filter value and an `active` class. A click on a filter button
 * makes that button the only active one and shows exactly the items its filter selects.
 */
module ProjectFilter {

  /** The filter value that selects every item. */
  const All := "all"

  /** `filterProjects(filter)` shows an item of category `category`. */
  predicate Shows(filter: string, category: string)
  {
    filter == All || filter == category
  }

  /**
   * The `hide` flags `filterProjects(filter)` leaves on items of the given categories: one
   * flag per item, set exactly when the filter does not select that item's category.
   */
  function HiddenFlags(categories: seq<string>, filter: string): (flags: seq<bool>)
    ensures |flags| == |categories|
    ensures forall i :: 0 <= i < |categories| ==> (flags[i] <==> !Shows(filter, categories[i]))
    decreases |categories|
  {
    if categories == [] then []
    else [!Shows(filter, categories[0])] + HiddenFlags(categories[1..], filter)
  }

  /** The `active` flags after a click on button `k` of `n`: button `k` alone. */
  function ActiveFlags(n: nat, k: nat): seq<bool>
    decreases n
  {
    if n == 0 then [] else ActiveFlags(n - 1, k) + [n - 1 == k]
  }

  /** How many flags are set. */
  function CountSet(flags: seq<bool>): nat
    decreases |flags|
  {
    if flags == [] then 0 else (if flags[0] then 1 else 0) + CountSet(flags[1..])
  }

  /** The wildcard filter hides nothing. */
  lemma {:induction false} AllShowsEverything(categories: seq<string>)
    ensures CountSet(HiddenFlags(categories, All)) == 0
    decreases |categories|
  {
    if categories != [] {
      AllShowsEverything(categories[1..]);
    }
  }

  /** A filter that is neither the wildcard nor any item's category hides every item. */
  lemma {:induction false} UnknownFilterHidesEverything(categories: seq<string>, filter: string)
    requires filter != All && filter !in categories
    ensures CountSet(HiddenFlags(categories, filter)) == |categories|
    decreases |categories|
  {
    if categories != [] {
      assert categories == [categories[0]] + categories[1..];
      UnknownFilterHidesEverything(categories[1..], filter);
    }
  }

  lemma {:induction false} CountSetAppend(flags: seq<bool>, b: bool)
    ensures CountSet(flags + [b]) == CountSet(flags) + (if b then 1 else 0)
    decreases |flags|
  {
    if flags != [] {
      assert (flags + [b])[1..] == flags[1..] + [b];
      CountSetAppend(flags[1..], b);
    }
  }

  /** Button `j` is active after a click on button `k` exactly when `j` is `k`. */
  lemma {:induction false} ActiveFlagsAt(n: nat, k: nat, j: nat)
    requires j < n
    ensures |ActiveFlags(n, k)| == n
    ensures ActiveFlags(n, k)[j] <==> j == k
    decreases n
  {
    ActiveFlagsLength(n - 1, k);
    if j < n - 1 {
      ActiveFlagsAt(n - 1, k, j);
    }
  }

  lemma {:induction false} ActiveFlagsLength(n: nat, k: nat)
    ensures |ActiveFlags(n, k)| == n
    decreases n
  {
    if n > 0 {
      ActiveFlagsLength(n - 1, k);
    }
  }

  /** After a click on one of the buttons exactly one button is active. */
  lemma {:induction false} ExactlyOneActive(n: nat, k: nat)
    requires k < n
    ensures CountSet(ActiveFlags(n, k)) == 1
    decreases n
  {
    CountSetAppend(ActiveFlags(n - 1, k), n - 1 == k);
    if k < n - 1 {
      ExactlyOneActive(n - 1, k);
    } else {
      NoneActive(n - 1, k);
    }
  }

  lemma {:induction false} NoneActive(n: nat, k: nat)
    requires n <= k
    ensures CountSet(ActiveFlags(n, k)) == 0
    decreases n
  {
    if n > 0 {
      CountSetAppend(ActiveFlags(n - 1, k), false);
      NoneActive(n - 1, k);
    }
  }

  /**
   * The items and the filter buttons found in the markup. The categories and filter values
   * are fixed; the `hide` and `active` classes live in `hidden` and `active`.
   */
  class ProjectGrid {
    const categories: seq<string>
    const hidden: array<bool>
    const filters: seq<string>
    const active: array<bool>

    ghost predicate Valid()
      reads this
    {
      hidden.Length == |categories| && active.Length == |filters| && hidden != active
    }

    /** The grid as the markup gives it: the initial `hide` and `active` classes. */
    constructor (categories: seq<string>, hiddenAtLoad: seq<bool>, filters: seq<string>, activeAtLoad: seq<bool>)
      requires |hiddenAtLoad| == |categories| && |activeAtLoad| == |filters|
      ensures Valid() && fresh(hidden) && fresh(active)
      ensures this.categories == categories && this.filters == filters
      ensures hidden[..] == hiddenAtLoad && active[..] == activeAtLoad
    {
      this.categories := categories;
      this.filters := filters;
      hidden := new bool[|categories|](i requires 0 <= i < |categories| => hiddenAtLoad[i]);
      active := new bool[|filters|](i requires 0 <= i < |filters| => activeAtLoad[i]);
    }

    /** `filterProjects(filter)`: each item's `hide` class is set or removed by the filter alone. */
    method FilterProjects(filter: string)
      requires Valid()
      modifies hidden
      ensures hidden[..] == HiddenFlags(categories, filter)
    {
      var i := 0;
      while i < hidden.Length
        invariant 0 <= i <= hidden.Length
        invariant forall k :: 0 <= k < i ==> (hidden[k] <==> !Shows(filter, categories[k]))
      {
        var shouldShow := filter == All || filter == categories[i];
        if shouldShow {
          hidden[i] := false;
        } else {
          hidden[i] := true;
        }
        i := i + 1;
      }
    }

    /** The click handler of filter button `k`. */
    method ClickFilterButton(k: nat)
      requires Valid() && k < |filters|
      modifies hidden, active
      ensures active[..] == ActiveFlags(|filters|, k)
      ensures CountSet(active[..]) == 1
      ensures hidden[..] == HiddenFlags(categories, filters[k])
    {
      var filterCategory := filters[k];
      var j := 0;
      while j < active.Length
        invariant 0 <= j <= active.Length
        invariant forall m :: 0 <= m < j ==> !active[m]
      {
        active[j] := false;
        j := j + 1;
      }
      active[k] := true;
      FilterProjects(filterCategory);
      ActiveFlagsLength(|filters|, k);
      forall m | 0 <= m < active.Length ensures active[m] == ActiveFlags(|filters|, k)[m] {
        ActiveFlagsAt(|filters|, k, m);
      }
      ExactlyOneActive(|filters|, k);
    }

    /** Filtering twice by the same value leaves the flags one filtering leaves. */
    method FilterProjectsTwice(filter: string)
      requires Valid()
      modifies hidden
      ensures hidden[..] == HiddenFlags(categories, filter)
    {
      FilterProjects(filter);
      ghost var once := hidden[..];
      FilterProjects(filter);
      assert hidden[..] == once;
    }
  }
}
