/**
 * The sort step of the list pipeline (`sortFilter`): for every active filter,
 * in declaration order, a stable sort of the whole list with the comparator
 * `a[name] - b[name]`, or `b[name] - a[name]` when the filter's `isIncreases`
 * is set.
 */
module Sorting {
  import opened Users
  import opened Filters

  /** The comparator handed to `Array.prototype.sort`; a negative value puts `a` first. */
  function Compare(a: User, b: User, f: Field, increases: bool): (r: int)
    ensures r == 0 <==> Key(a, f) == Key(b, f)
    ensures !increases ==> (r < 0 <==> Key(a, f) < Key(b, f))
    ensures increases ==> (r < 0 <==> Key(a, f) > Key(b, f))
  {
    if increases then Key(b, f) - Key(a, f) else Key(a, f) - Key(b, f)
  }

  /** `a` may stand before `b`: the comparator does not ask for `b` first. */
  predicate Before(a: User, b: User, f: Field, increases: bool)
  {
    Compare(a, b, f, increases) <= 0
  }

  /** Every element may stand before every later one. */
  predicate SortedBy(s: seq<User>, f: Field, increases: bool)
  {
    forall i, j :: 0 <= i < j < |s| ==> Before(s[i], s[j], f, increases)
  }

  /** Sorted with `increases` unset means ascending keys; with it set, descending keys. */
  lemma SortedByOrder(s: seq<User>, f: Field, increases: bool)
    ensures SortedBy(s, f, increases) <==>
      forall i, j :: 0 <= i < j < |s| ==>
        if increases then Key(s[i], f) >= Key(s[j], f) else Key(s[i], f) <= Key(s[j], f)
  {
  }

  /** The elements of `s` whose key on `f` is `k`, in their order in `s`. */
  function WithKey(s: seq<User>, f: Field, k: int): seq<User>
  {
    if s == [] then []
    else if Key(s[0], f) == k then [s[0]] + WithKey(s[1..], f, k)
    else WithKey(s[1..], f, k)
  }

  /** The subsequence of key `k` holds exactly the elements with that key. */
  lemma {:induction false} WithKeyMembers(s: seq<User>, f: Field, k: int)
    ensures forall u :: u in WithKey(s, f, k) <==> u in s && Key(u, f) == k
  {
    if s != [] {
      WithKeyMembers(s[1..], f, k);
      assert s == [s[0]] + s[1..];
    }
  }

  /** Dropping the first element drops it from its own key's subsequence only. */
  lemma WithKeyTail(s: seq<User>, f: Field, k: int)
    requires s != []
    ensures WithKey(s, f, k) == (if Key(s[0], f) == k then [s[0]] else []) + WithKey(s[1..], f, k)
  {
  }

  /** The first element of a sorted sequence may stand before every element. */
  lemma FirstBefore(s: seq<User>, f: Field, increases: bool, u: User)
    requires SortedBy(s, f, increases) && u in s
    ensures Before(s[0], u, f, increases)
  {
    var i :| 0 <= i < |s| && s[i] == u;
    if i > 0 {
      assert Before(s[0], s[i], f, increases);
    }
  }

  /** Puts `x` in front of the first element it may stand before. */
  function Insert(x: User, s: seq<User>, f: Field, increases: bool): (r: seq<User>)
    ensures |r| == |s| + 1
    ensures multiset(r) == multiset(s) + multiset{x}
  {
    if s == [] then [x]
    else if Before(x, s[0], f, increases) then [x] + s
    else
      assert s == [s[0]] + s[1..];
      [s[0]] + Insert(x, s[1..], f, increases)
  }

  /** A head that may stand before every element of a sorted tail gives a sorted sequence. */
  lemma ConsSorted(h: User, t: seq<User>, f: Field, increases: bool)
    requires SortedBy(t, f, increases)
    requires forall u :: u in t ==> Before(h, u, f, increases)
    ensures SortedBy([h] + t, f, increases)
  {
    var r := [h] + t;
    forall i, j | 0 <= i < j < |r|
      ensures Before(r[i], r[j], f, increases)
    {
      assert r[j] == t[j - 1];
      if i > 0 {
        assert r[i] == t[i - 1];
      }
    }
  }

  /** Inserting into a sorted sequence keeps it sorted. */
  lemma {:induction false} InsertSorted(x: User, s: seq<User>, f: Field, increases: bool)
    requires SortedBy(s, f, increases)
    ensures SortedBy(Insert(x, s, f, increases), f, increases)
  {
    if s == [] {
    } else if Before(x, s[0], f, increases) {
      forall u | u in s
        ensures Before(x, u, f, increases)
      {
        FirstBefore(s, f, increases, u);
      }
      ConsSorted(x, s, f, increases);
    } else {
      var rest := Insert(x, s[1..], f, increases);
      InsertSorted(x, s[1..], f, increases);
      forall u | u in rest
        ensures Before(s[0], u, f, increases)
      {
        assert u in multiset(rest);
        if u != x {
          assert u in s[1..];
          FirstBefore(s, f, increases, u);
        }
      }
      ConsSorted(s[0], rest, f, increases);
    }
  }

  /** `x` joins its key's subsequence in front; the other keys' subsequences stay. */
  lemma {:induction false} InsertWithKey(x: User, s: seq<User>, f: Field, increases: bool, k: int)
    ensures WithKey(Insert(x, s, f, increases), f, k) == (if Key(x, f) == k then [x] else []) + WithKey(s, f, k)
  {
    var r := Insert(x, s, f, increases);
    if s == [] {
      WithKeyTail(r, f, k);
    } else if Before(x, s[0], f, increases) {
      WithKeyTail(r, f, k);
      assert r[1..] == s;
    } else {
      InsertWithKey(x, s[1..], f, increases, k);
      InsertWithKeyBehind(x, s, f, increases, k);
    }
  }

  /** The step of `InsertWithKey` where `x` goes behind the first element. */
  lemma InsertWithKeyBehind(x: User, s: seq<User>, f: Field, increases: bool, k: int)
    requires s != [] && !Before(x, s[0], f, increases)
    requires WithKey(Insert(x, s[1..], f, increases), f, k) == (if Key(x, f) == k then [x] else []) + WithKey(s[1..], f, k)
    ensures WithKey(Insert(x, s, f, increases), f, k) == (if Key(x, f) == k then [x] else []) + WithKey(s, f, k)
  {
    var rest := Insert(x, s[1..], f, increases);
    var r := Insert(x, s, f, increases);
    assert r == [s[0]] + rest && r[1..] == rest;
    WithKeyTail(r, f, k);
    WithKeyTail(s, f, k);
    if Key(x, f) == k {
      assert Key(s[0], f) != k;
      assert WithKey(r, f, k) == WithKey(rest, f, k) == [x] + WithKey(s[1..], f, k);
      assert WithKey(s, f, k) == WithKey(s[1..], f, k);
    } else if Key(s[0], f) == k {
      assert WithKey(rest, f, k) == WithKey(s[1..], f, k);
      assert WithKey(r, f, k) == [s[0]] + WithKey(s[1..], f, k) == WithKey(s, f, k);
    } else {
      assert WithKey(r, f, k) == WithKey(rest, f, k) == WithKey(s[1..], f, k) == WithKey(s, f, k);
    }
  }

  /** Inserting a new value into a sequence without duplicates keeps it without. */
  lemma {:induction false} InsertNoDup(x: User, s: seq<User>, f: Field, increases: bool)
    requires NoDup(s) && x !in s
    ensures NoDup(Insert(x, s, f, increases))
  {
    if s == [] {
    } else if Before(x, s[0], f, increases) {
      NoDupCons(x, s);
    } else {
      assert s == [s[0]] + s[1..];
      NoDupCons(s[0], s[1..]);
      var rest := Insert(x, s[1..], f, increases);
      InsertNoDup(x, s[1..], f, increases);
      assert s[0] !in multiset(rest);
      NoDupCons(s[0], rest);
    }
  }

  /** A stable insertion sort with the comparator of `f` in direction `increases`. */
  function SortBy(s: seq<User>, f: Field, increases: bool): (r: seq<User>)
    ensures |r| == |s|
    ensures multiset(r) == multiset(s)
    ensures SortedBy(r, f, increases)
  {
    if s == [] then []
    else
      assert s == [s[0]] + s[1..];
      var t := SortBy(s[1..], f, increases);
      InsertSorted(s[0], t, f, increases);
      Insert(s[0], t, f, increases)
  }

  /** Sorting keeps a sequence without duplicates without. */
  lemma {:induction false} SortByNoDup(s: seq<User>, f: Field, increases: bool)
    requires NoDup(s)
    ensures NoDup(SortBy(s, f, increases))
  {
    if s != [] {
      assert s == [s[0]] + s[1..];
      NoDupCons(s[0], s[1..]);
      SortByNoDup(s[1..], f, increases);
      assert s[0] !in multiset(SortBy(s[1..], f, increases));
      InsertNoDup(s[0], SortBy(s[1..], f, increases), f, increases);
    }
  }

  /** Stability: elements with equal keys keep their relative order. */
  lemma {:induction false} SortByStable(s: seq<User>, f: Field, increases: bool, k: int)
    ensures WithKey(SortBy(s, f, increases), f, k) == WithKey(s, f, k)
  {
    if s != [] {
      SortByStable(s[1..], f, increases, k);
      InsertWithKey(s[0], SortBy(s[1..], f, increases), f, increases, k);
      WithKeyTail(s, f, k);
    }
  }

  /** Sequences with the same per-key subsequences are both empty or both not. */
  lemma SameEmptiness(a: seq<User>, b: seq<User>, f: Field)
    requires forall k :: WithKey(a, f, k) == WithKey(b, f, k)
    ensures a == [] <==> b == []
  {
    if a != [] {
      WithKeyTail(a, f, Key(a[0], f));
      WithKeyMembers(b, f, Key(a[0], f));
    }
    if b != [] {
      WithKeyTail(b, f, Key(b[0], f));
      WithKeyMembers(a, f, Key(b[0], f));
    }
  }

  /** Two sorted sequences with the same per-key subsequences start with the same key. */
  lemma HeadKeysEqual(a: seq<User>, b: seq<User>, f: Field, increases: bool)
    requires SortedBy(a, f, increases) && SortedBy(b, f, increases)
    requires a != [] && b != []
    requires forall k :: WithKey(a, f, k) == WithKey(b, f, k)
    ensures Key(a[0], f) == Key(b[0], f)
  {
    WithKeyTail(a, f, Key(a[0], f));
    WithKeyTail(b, f, Key(b[0], f));
    WithKeyMembers(a, f, Key(b[0], f));
    WithKeyMembers(b, f, Key(a[0], f));
    FirstBefore(a, f, increases, b[0]);
    FirstBefore(b, f, increases, a[0]);
  }

  /** Removing the same first element from both sides keeps one key's subsequences equal. */
  lemma TailAgreesAt(a: seq<User>, b: seq<User>, f: Field, k: int)
    requires a != [] && b != [] && a[0] == b[0]
    requires WithKey(a, f, k) == WithKey(b, f, k)
    ensures WithKey(a[1..], f, k) == WithKey(b[1..], f, k)
  {
    WithKeyTail(a, f, k);
    WithKeyTail(b, f, k);
    if Key(a[0], f) == k {
      assert WithKey(a[1..], f, k) == WithKey(a, f, k)[1..];
      assert WithKey(b[1..], f, k) == WithKey(b, f, k)[1..];
    }
  }

  /** Equal heads' keys make the heads equal and the tails agree on every key. */
  lemma TailsAgree(a: seq<User>, b: seq<User>, f: Field)
    requires a != [] && b != [] && Key(a[0], f) == Key(b[0], f)
    requires forall k :: WithKey(a, f, k) == WithKey(b, f, k)
    ensures a[0] == b[0]
    ensures forall k :: WithKey(a[1..], f, k) == WithKey(b[1..], f, k)
  {
    var ka := Key(a[0], f);
    WithKeyTail(a, f, ka);
    WithKeyTail(b, f, ka);
    assert a[0] == WithKey(a, f, ka)[0] == WithKey(b, f, ka)[0] == b[0];
    forall k
      ensures WithKey(a[1..], f, k) == WithKey(b[1..], f, k)
    {
      TailAgreesAt(a, b, f, k);
    }
  }

  /**
   * A sorted sequence is determined by its per-key subsequences: two sequences
   * sorted by the same comparator that agree on every key's elements are equal.
   */
  lemma {:induction false} SortedUnique(a: seq<User>, b: seq<User>, f: Field, increases: bool)
    requires SortedBy(a, f, increases) && SortedBy(b, f, increases)
    requires forall k :: WithKey(a, f, k) == WithKey(b, f, k)
    ensures a == b
    decreases |a|
  {
    SameEmptiness(a, b, f);
    if a != [] {
      HeadKeysEqual(a, b, f, increases);
      TailsAgree(a, b, f);
      SortedUnique(a[1..], b[1..], f, increases);
      assert a == [a[0]] + a[1..] && b == [b[0]] + b[1..];
    }
  }

  /**
   * `SortBy` is the only stable sort: any sequence that is sorted by the same
   * comparator and keeps the order of equal keys is exactly `SortBy(s, ...)`,
   * so every conforming `Array.prototype.sort` yields it.
   */
  lemma SortByIsTheStableSort(s: seq<User>, t: seq<User>, f: Field, increases: bool)
    requires SortedBy(t, f, increases)
    requires forall k :: WithKey(t, f, k) == WithKey(s, f, k)
    ensures t == SortBy(s, f, increases)
  {
    forall k
      ensures WithKey(t, f, k) == WithKey(SortBy(s, f, increases), f, k)
    {
      SortByStable(s, f, increases, k);
    }
    SortedUnique(t, SortBy(s, f, increases), f, increases);
  }

  /** The list after sorting it once for each of `active`, first to last. */
  function SortAll(s: seq<User>, active: seq<FilterState>): (r: seq<User>)
    ensures multiset(r) == multiset(s)
    ensures |r| == |s|
  {
    if active == [] then s
    else
      var last := active[|active| - 1];
      SortBy(SortAll(s, active[..|active| - 1]), last.name, last.isIncreases)
  }

  /** Sorting once per filter keeps a sequence without duplicates without. */
  lemma {:induction false} SortAllNoDup(s: seq<User>, active: seq<FilterState>)
    requires NoDup(s)
    ensures NoDup(SortAll(s, active))
  {
    if active != [] {
      var last := active[|active| - 1];
      SortAllNoDup(s, active[..|active| - 1]);
      SortByNoDup(SortAll(s, active[..|active| - 1]), last.name, last.isIncreases);
    }
  }

  /** Sorting once per filter keeps a duplicate-free view of a list duplicate-free and inside it. */
  lemma SortAllWithin(s: seq<User>, active: seq<FilterState>, all: seq<User>)
    requires NoDup(s) && forall u :: u in s ==> u in all
    ensures NoDup(SortAll(s, active)) && forall u :: u in SortAll(s, active) ==> u in all
  {
    SortAllNoDup(s, active);
    assert forall u :: u in SortAll(s, active) ==> u in multiset(s);
  }

  /** With one active filter the list is that filter's stable sort. */
  lemma SortAllOne(s: seq<User>, e: FilterState)
    ensures SortAll(s, [e]) == SortBy(s, e.name, e.isIncreases)
    ensures SortedBy(SortAll(s, [e]), e.name, e.isIncreases)
    ensures forall k :: WithKey(SortAll(s, [e]), e.name, k) == WithKey(s, e.name, k)
  {
    assert [e][..0] == [];
    forall k
      ensures WithKey(SortAll(s, [e]), e.name, k) == WithKey(s, e.name, k)
    {
      SortByStable(s, e.name, e.isIncreases, k);
    }
  }
}
