/** Sums over event lists, grouped by a string key. */
module Aggregation {
  import opened Ordering

  function SumOf<T>(weight: T -> nat, s: seq<T>): nat {
    if s == [] then 0 else weight(s[0]) + SumOf(weight, s[1..])
  }

  function Weigh<T>(key: T -> string, weight: T -> nat, name: string, x: T): nat {
    if key(x) == name then weight(x) else 0
  }

  /** The weight of the events with one key. */
  function GroupSum<T>(key: T -> string, weight: T -> nat, name: string, s: seq<T>): nat {
    if s == [] then 0 else Weigh(key, weight, name, s[0]) + GroupSum(key, weight, name, s[1..])
  }

  function SumOverNames<T>(key: T -> string, weight: T -> nat, names: seq<string>, s: seq<T>): nat {
    if names == [] then 0 else GroupSum(key, weight, names[0], s) + SumOverNames(key, weight, names[1..], s)
  }

  predicate Distinct<T(==)>(s: seq<T>) {
    forall i, j | 0 <= i < j < |s| :: s[i] != s[j]
  }

  lemma {:induction false} OneEventOneGroup<T>(key: T -> string, weight: T -> nat, names: seq<string>, s: seq<T>)
    requires Distinct(names) && s != []
    ensures SumOverNames(key, weight, names, s)
            == SumOverNames(key, weight, names, s[1..]) + if key(s[0]) in names then weight(s[0]) else 0
  {
    if names != [] {
      OneEventOneGroup(key, weight, names[1..], s);
      assert names == [names[0]] + names[1..];
    }
  }

  lemma {:induction false} NoEventsNoGroups<T>(key: T -> string, weight: T -> nat, names: seq<string>)
    ensures SumOverNames(key, weight, names, []) == 0
  {
    if names != [] { NoEventsNoGroups(key, weight, names[1..]); }
  }

  /** Grouping loses nothing and counts nothing twice. */
  lemma {:induction false} GroupsConserve<T>(key: T -> string, weight: T -> nat, names: seq<string>, s: seq<T>)
    requires Distinct(names) && forall x | x in s :: key(x) in names
    ensures SumOverNames(key, weight, names, s) == SumOf(weight, s)
  {
    if s == [] {
      NoEventsNoGroups(key, weight, names);
    } else {
      OneEventOneGroup(key, weight, names, s);
      GroupsConserve(key, weight, names, s[1..]);
    }
  }

  lemma {:induction false} SumOfFiltered<T>(
      key: T -> string, weight: T -> nat, name: string, keep: T -> bool, s: seq<T>)
    requires forall x :: keep(x) <==> key(x) == name
    ensures SumOf(weight, Filter(keep, s)) == GroupSum(key, weight, name, s)
  {
    if s != [] {
      SumOfFiltered(key, weight, name, keep, s[1..]);
      if keep(s[0]) {
        var kept := [s[0]] + Filter(keep, s[1..]);
        assert Filter(keep, s) == kept && kept[1..] == Filter(keep, s[1..]);
      } else {
        assert Filter(keep, s) == Filter(keep, s[1..]);
      }
    }
  }

  /** Splitting a list by two filters that share no element splits every sum. */
  lemma {:induction false} SumOfSplit<T>(
      weight: T -> nat, whole: T -> bool, left: T -> bool, right: T -> bool, s: seq<T>)
    requires forall x :: (whole(x) <==> left(x) || right(x)) && !(left(x) && right(x))
    ensures SumOf(weight, Filter(whole, s)) == SumOf(weight, Filter(left, s)) + SumOf(weight, Filter(right, s))
  {
    if s != [] {
      SumOfSplit(weight, whole, left, right, s[1..]);
      SumOfFilterStep(weight, whole, s);
      SumOfFilterStep(weight, left, s);
      SumOfFilterStep(weight, right, s);
    }
  }

  lemma SumOfFilterStep<T>(weight: T -> nat, keep: T -> bool, s: seq<T>)
    requires s != []
    ensures SumOf(weight, Filter(keep, s)) == (if keep(s[0]) then weight(s[0]) else 0)
            + SumOf(weight, Filter(keep, s[1..]))
  {
    if keep(s[0]) {
      var kept := [s[0]] + Filter(keep, s[1..]);
      assert Filter(keep, s) == kept && kept[1..] == Filter(keep, s[1..]);
    } else {
      assert Filter(keep, s) == Filter(keep, s[1..]);
    }
  }

  lemma {:induction false} CountIsLength<T>(weight: T -> nat, s: seq<T>)
    requires forall x :: weight(x) == 1
    ensures SumOf(weight, s) == |s|
  {
    if s != [] { CountIsLength(weight, s[1..]); }
  }

  lemma {:induction false} SumIsMonotone<T>(small: T -> nat, large: T -> nat, s: seq<T>)
    requires forall x :: small(x) <= large(x)
    ensures SumOf(small, s) <= SumOf(large, s)
  {
    if s != [] { SumIsMonotone(small, large, s[1..]); }
  }

  lemma {:induction false} SumsAdd<T>(a: T -> nat, b: T -> nat, both: T -> nat, s: seq<T>)
    requires forall x :: both(x) == a(x) + b(x)
    ensures SumOf(both, s) == SumOf(a, s) + SumOf(b, s)
  {
    if s != [] { SumsAdd(a, b, both, s[1..]); }
  }
}
