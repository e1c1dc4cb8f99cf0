/**
 * The user records of the table view and the string helpers its search uses:
 * ASCII lower-casing (standing in for `toLowerCase`) and substring containment
 * (standing in for `String.prototype.includes`).
 */
module Users {

  datatype Option<T> = None | Some(value: T)

  /** One row of the table; the registration date is an epoch timestamp. */
  datatype User = User(id: string, username: string, email: string, registrationDate: int, rating: int)

  /** The two sortable columns, in the order the filter table declares them. */
  datatype Field = RegistrationDate | Rating

  /** The numeric value a sort on `f` compares (`user[filter.name]`). */
  function Key(u: User, f: Field): int
  {
    match f
    case RegistrationDate => u.registrationDate
    case Rating => u.rating
  }

  /** No value occurs twice in `s`. */
  predicate NoDup<T(==)>(s: seq<T>)
  {
    forall i, j :: 0 <= i < j < |s| ==> s[i] != s[j]
  }

  /** No two entries of `s` share an id. */
  predicate UniqueIds(s: seq<User>)
  {
    forall i, j :: 0 <= i < j < |s| ==> s[i].id != s[j].id
  }

  lemma NoDupCons<T>(x: T, t: seq<T>)
    ensures NoDup([x] + t) <==> x !in t && NoDup(t)
  {
    if x !in t && NoDup(t) {
      forall i, j | 0 <= i < j < |[x] + t|
        ensures ([x] + t)[i] != ([x] + t)[j]
      {
        if i == 0 { assert ([x] + t)[j] == t[j - 1]; }
      }
    }
    if NoDup([x] + t) {
      forall j | 0 <= j < |t|
        ensures t[j] != x && forall i :: 0 <= i < j ==> t[i] != t[j]
      {
        assert t[j] == ([x] + t)[j + 1] && x == ([x] + t)[0];
        assert forall i :: 0 <= i < j ==> t[i] == ([x] + t)[i + 1];
      }
    }
  }

  /** The elements `s` holds, as a set. */
  function ElemsOf<T>(s: seq<T>): set<T>
  {
    set x | x in s
  }

  /** `Array.prototype.filter`: the elements satisfying `p`, in their order. */
  function Filter(s: seq<User>, p: User -> bool): (r: seq<User>)
    ensures |r| <= |s|
    ensures forall x :: x in r <==> x in s && p(x)
    ensures NoDup(s) ==> NoDup(r)
  {
    if s == [] then []
    else
      NoDupCons(s[0], s[1..]);
      assert s == [s[0]] + s[1..];
      var rest := Filter(s[1..], p);
      NoDupCons(s[0], rest);
      if p(s[0]) then [s[0]] + rest else rest
  }

  /** Two tests that agree on every element of `s` select the same elements. */
  lemma {:induction false} FilterAgree(s: seq<User>, p: User -> bool, q: User -> bool)
    requires forall x :: x in s ==> p(x) == q(x)
    ensures Filter(s, p) == Filter(s, q)
  {
    if s != [] {
      FilterAgree(s[1..], p, q);
    }
  }

  lemma UniqueIdsNoDup(s: seq<User>)
    requires UniqueIds(s)
    ensures NoDup(s)
  {
  }

  /** Distinct entries drawn from a list with unique ids have unique ids. */
  lemma SubsetUniqueIds(s: seq<User>, all: seq<User>)
    requires NoDup(s) && UniqueIds(all)
    requires forall u :: u in s ==> u in all
    ensures UniqueIds(s)
  {
    forall i, j | 0 <= i < j < |s|
      ensures s[i].id != s[j].id
    {
      assert s[i] in all && s[j] in all;
      var p :| 0 <= p < |all| && all[p] == s[i];
      var q :| 0 <= q < |all| && all[q] == s[j];
      assert p != q;
    }
  }

  function LowerChar(c: char): (r: char)
    ensures 'A' <= c <= 'Z' ==> 'a' <= r <= 'z' && r as int - c as int == 32
    ensures !('A' <= c <= 'Z') ==> r == c
  {
    if 'A' <= c <= 'Z' then (c as int + 32) as char else c
  }

  /** ASCII lower-casing, character by character. */
  function Lower(s: string): (r: string)
    ensures |r| == |s|
    ensures forall i :: 0 <= i < |s| ==> r[i] == LowerChar(s[i])
    ensures forall i :: 0 <= i < |r| ==> !('A' <= r[i] <= 'Z')
  {
    seq(|s|, i requires 0 <= i < |s| => LowerChar(s[i]))
  }

  /** Lower-casing an already lower-cased string changes nothing. */
  lemma LowerIdempotent(s: string)
    ensures Lower(Lower(s)) == Lower(s)
  {
  }

  /** `needle` occurs in `hay` starting at offset `k`. */
  predicate OccursAt(hay: string, needle: string, k: int)
  {
    0 <= k && k + |needle| <= |hay| && hay[k..k + |needle|] == needle
  }

  /** `hay.includes(needle)`: tries each offset from the left. */
  function Contains(hay: string, needle: string): (r: bool)
    ensures needle == [] ==> r
    ensures r ==> |needle| <= |hay|
    decreases |hay|
  {
    needle <= hay || (|hay| > 0 && Contains(hay[1..], needle))
  }

  /** An occurrence at offset `k` is found by the left-to-right scan. */
  lemma {:induction false} OccursAtContains(hay: string, needle: string, k: int)
    requires OccursAt(hay, needle, k)
    ensures Contains(hay, needle)
    decreases k
  {
    if k > 0 {
      assert hay[1..][k - 1..k - 1 + |needle|] == hay[k..k + |needle|];
      OccursAtContains(hay[1..], needle, k - 1);
    }
  }

  /** The scan succeeds only at a real occurrence, whose offset it returns. */
  lemma {:induction false} ContainsWitness(hay: string, needle: string) returns (k: int)
    requires Contains(hay, needle)
    ensures OccursAt(hay, needle, k)
    decreases |hay|
  {
    if needle <= hay {
      k := 0;
    } else {
      var j := ContainsWitness(hay[1..], needle);
      assert hay[j + 1..j + 1 + |needle|] == hay[1..][j..j + |needle|];
      k := j + 1;
    }
  }

  /** `Contains` holds exactly when some offset of `hay` holds `needle`. */
  lemma ContainsIff(hay: string, needle: string)
    ensures Contains(hay, needle) <==> exists k :: OccursAt(hay, needle, k)
  {
    if Contains(hay, needle) {
      var k := ContainsWitness(hay, needle);
    }
    forall k | OccursAt(hay, needle, k)
      ensures Contains(hay, needle)
    {
      OccursAtContains(hay, needle, k);
    }
  }
}
