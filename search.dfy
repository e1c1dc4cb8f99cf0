/**
 * The search step of the list pipeline (`searchUser`): a case-insensitive
 * substring match on the username and on the email, the two result lists
 * concatenated and de-duplicated the way `[...new Set(list)]` does.
 */
module Search {
  import opened Users

  /** The lower-cased username contains the lower-cased search value. */
  function NameMatches(u: User, value: string): (r: bool)
    ensures value == [] ==> r
    ensures r ==> |value| <= |u.username|
  {
    Contains(Lower(u.username), Lower(value))
  }

  /** The lower-cased email contains the lower-cased search value. */
  function EmailMatches(u: User, value: string): (r: bool)
    ensures value == [] ==> r
    ensures r ==> |value| <= |u.email|
  {
    Contains(Lower(u.email), Lower(value))
  }

  /** The users whose username matches, in their order. */
  function ByUsername(s: seq<User>, value: string): (r: seq<User>)
    ensures forall u :: u in r <==> u in s && NameMatches(u, value)
    ensures NoDup(s) ==> NoDup(r)
  {
    Filter(s, u => NameMatches(u, value))
  }

  /** The users whose email matches, in their order. */
  function ByEmail(s: seq<User>, value: string): (r: seq<User>)
    ensures forall u :: u in r <==> u in s && EmailMatches(u, value)
    ensures NoDup(s) ==> NoDup(r)
  {
    Filter(s, u => EmailMatches(u, value))
  }

  /** The users whose email matches but whose username does not. */
  function ByEmailOnly(s: seq<User>, value: string): seq<User>
  {
    Filter(s, u => EmailMatches(u, value) && !NameMatches(u, value))
  }

  /**
   * `[...new Set(s)]` with the values in `seen` already in the set: the first
   * occurrence of every value not yet seen, in order.
   */
  function DedupFrom(s: seq<User>, seen: set<User>): (r: seq<User>)
    ensures forall u :: u in r <==> u in s && u !in seen
    ensures NoDup(r)
  {
    if s == [] then []
    else if s[0] in seen then DedupFrom(s[1..], seen)
    else
      var rest := DedupFrom(s[1..], seen + {s[0]});
      NoDupCons(s[0], rest);
      [s[0]] + rest
  }

  /** `[...new Set(s)]`. */
  function Dedup(s: seq<User>): (r: seq<User>)
    ensures forall u :: u in r <==> u in s
    ensures NoDup(r)
    ensures NoDup(s) ==> r == s
  {
    assert NoDup(s) ==> DedupFrom(s, {}) == s by {
      if NoDup(s) {
        DedupFromFresh(s, {});
      }
    }
    DedupFrom(s, {})
  }

  /** De-duplicating a concatenation: the second part skips what the first holds. */
  lemma {:induction false} DedupFromAppend(a: seq<User>, b: seq<User>, seen: set<User>)
    ensures DedupFrom(a + b, seen) == DedupFrom(a, seen) + DedupFrom(b, seen + ElemsOf(a))
  {
    if a == [] {
      assert a + b == b;
      assert seen + ElemsOf(a) == seen;
    } else {
      var seen' := if a[0] in seen then seen else seen + {a[0]};
      DedupFromAppend(a[1..], b, seen');
      DedupFromAppendStep(a, b, seen);
    }
  }

  /** The step of `DedupFromAppend` for a non-empty first part. */
  lemma DedupFromAppendStep(a: seq<User>, b: seq<User>, seen: set<User>)
    requires a != []
    requires var seen' := if a[0] in seen then seen else seen + {a[0]};
      DedupFrom(a[1..] + b, seen') == DedupFrom(a[1..], seen') + DedupFrom(b, seen' + ElemsOf(a[1..]))
    ensures DedupFrom(a + b, seen) == DedupFrom(a, seen) + DedupFrom(b, seen + ElemsOf(a))
  {
    assert (a + b)[0] == a[0];
    assert (a + b)[1..] == a[1..] + b;
    var seen' := if a[0] in seen then seen else seen + {a[0]};
    assert seen' + ElemsOf(a[1..]) == seen + ElemsOf(a) by {
      assert a == [a[0]] + a[1..];
    }
    if a[0] !in seen {
      assert DedupFrom(a + b, seen) == [a[0]] + DedupFrom(a[1..] + b, seen');
      assert DedupFrom(a, seen) == [a[0]] + DedupFrom(a[1..], seen');
    }
  }

  /** On a sequence without duplicates, de-duplication only drops what was seen. */
  lemma {:induction false} DedupFromNoDup(s: seq<User>, seen: set<User>)
    requires NoDup(s)
    ensures DedupFrom(s, seen) == Filter(s, u => u !in seen)
  {
    if s != [] {
      NoDupCons(s[0], s[1..]);
      assert s == [s[0]] + s[1..];
      if s[0] in seen {
        DedupFromNoDup(s[1..], seen);
      } else {
        DedupFromNoDup(s[1..], seen + {s[0]});
        FilterAgree(s[1..], u => u !in seen + {s[0]}, u => u !in seen);
      }
    }
  }

  /** A sequence without duplicates, none of them seen, passes through unchanged. */
  lemma {:induction false} DedupFromFresh(s: seq<User>, seen: set<User>)
    requires NoDup(s)
    requires forall u :: u in s ==> u !in seen
    ensures DedupFrom(s, seen) == s
  {
    if s != [] {
      NoDupCons(s[0], s[1..]);
      assert s == [s[0]] + s[1..];
      DedupFromFresh(s[1..], seen + {s[0]});
    }
  }

  /**
   * The new `filteredUsers` after `searchUser(value)`, given the authoritative
   * list and the previous `filteredUsers`: a copy of `users` for an empty value,
   * otherwise the matches drawn from the previous `filteredUsers`.
   */
  function SearchUser(users: seq<User>, filtered: seq<User>, value: string): (r: seq<User>)
    ensures value == [] ==> r == users
    ensures value != [] ==> forall u :: u in r <==> u in filtered && (NameMatches(u, value) || EmailMatches(u, value))
    ensures value != [] ==> NoDup(r)
  {
    if value == [] then users
    else Dedup(ByUsername(filtered, value) + ByEmail(filtered, value))
  }

  /**
   * When the previous `filteredUsers` has no duplicates, a non-empty search
   * lists the username matches in their order, then the email-only matches in
   * their order.
   */
  lemma SearchOrder(users: seq<User>, filtered: seq<User>, value: string)
    requires value != []
    requires NoDup(filtered)
    ensures SearchUser(users, filtered, value) == ByUsername(filtered, value) + ByEmailOnly(filtered, value)
  {
    var a := ByUsername(filtered, value);
    var b := ByEmail(filtered, value);
    DedupFromAppend(a, b, {});
    DedupFromFresh(a, {});
    var seen := {} + ElemsOf(a);
    DedupFromNoDup(b, seen);
    EmailOnlyStep(filtered, value, seen);
  }

  /**
   * The search ignores letter case: two values that lower-case alike give the
   * same new `filteredUsers`.
   */
  lemma SearchCaseInsensitive(users: seq<User>, filtered: seq<User>, v: string, w: string)
    requires Lower(v) == Lower(w)
    ensures SearchUser(users, filtered, v) == SearchUser(users, filtered, w)
  {
    if v != [] {
      FilterAgree(filtered, u => NameMatches(u, v), u => NameMatches(u, w));
      FilterAgree(filtered, u => EmailMatches(u, v), u => EmailMatches(u, w));
    }
  }

  /** Dropping the username matches from the email matches leaves the email-only matches. */
  lemma {:induction false} EmailOnlyStep(s: seq<User>, value: string, names: set<User>)
    requires forall u :: u in s ==> (u in names <==> NameMatches(u, value))
    ensures Filter(ByEmail(s, value), u => u !in names) == ByEmailOnly(s, value)
  {
    if s != [] {
      EmailOnlyStep(s[1..], value, names);
      var b := ByEmail(s, value);
      if EmailMatches(s[0], value) {
        assert b == [s[0]] + ByEmail(s[1..], value);
        assert b[0] == s[0] && b[1..] == ByEmail(s[1..], value);
      }
    }
  }
}
