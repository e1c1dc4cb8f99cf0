/**
 * Deleting a row (`removeObjectWithId`): find the first entry whose id equals
 * the selected id and splice it out; with no such entry the list is returned
 * unchanged. The selected id may be `null`, which no entry's id equals.
 */
module Removal {
  import opened Users

  /** `obj.id === id` for the selected id, where `None` stands for `null`. */
  function HasId(u: User, id: Option<string>): (r: bool)
    ensures id == None ==> !r
    ensures r ==> u.id == id.value
  {
    id == Some(u.id)
  }

  /** `arr.findIndex(obj => obj.id === id)`: the first matching index, or -1. */
  function FindIndex(s: seq<User>, id: Option<string>): (r: int)
    ensures -1 <= r < |s|
    ensures r == -1 <==> forall i :: 0 <= i < |s| ==> !HasId(s[i], id)
    ensures r >= 0 ==> HasId(s[r], id) && forall i :: 0 <= i < r ==> !HasId(s[i], id)
  {
    if s == [] then -1
    else if HasId(s[0], id) then 0
    else
      var k := FindIndex(s[1..], id);
      if k == -1 then -1 else k + 1
  }

  /** `removeObjectWithId(arr, id)`: `arr` after the `splice`. */
  function RemoveObjectWithId(s: seq<User>, id: Option<string>): (r: seq<User>)
    ensures (forall u :: u in s ==> !HasId(u, id)) ==> r == s
    ensures (exists u :: u in s && HasId(u, id)) ==>
      |r| == |s| - 1 &&
      var k := FindIndex(s, id);
      (forall i :: 0 <= i < k ==> r[i] == s[i]) &&
      (forall i :: k <= i < |r| ==> r[i] == s[i + 1])
    ensures multiset(r) <= multiset(s)
  {
    var k := FindIndex(s, id);
    if k > -1 then
      assert s == s[..k] + [s[k]] + s[k + 1..];
      s[..k] + s[k + 1..]
    else s
  }

  /** With unique ids, deleting a present id leaves no entry with that id. */
  lemma RemoveDropsId(s: seq<User>, id: Option<string>)
    requires UniqueIds(s)
    ensures forall u :: u in RemoveObjectWithId(s, id) ==> !HasId(u, id)
  {
    var k := FindIndex(s, id);
    var r := RemoveObjectWithId(s, id);
    if k >= 0 {
      forall u | u in r
        ensures !HasId(u, id)
      {
        var i :| 0 <= i < |r| && r[i] == u;
        if i >= k {
          assert r[i] == s[i + 1] && s[i + 1].id != s[k].id;
        }
      }
    }
  }

  /** Deleting keeps every entry whose id differs, and keeps ids unique. */
  lemma RemoveKeepsOthers(s: seq<User>, id: Option<string>)
    ensures forall u :: u in s && !HasId(u, id) ==> u in RemoveObjectWithId(s, id)
    ensures UniqueIds(s) ==> UniqueIds(RemoveObjectWithId(s, id))
    ensures NoDup(s) ==> NoDup(RemoveObjectWithId(s, id))
  {
    var k := FindIndex(s, id);
    if k >= 0 {
      var r := RemoveObjectWithId(s, id);
      assert r == s[..k] + s[k + 1..];
      forall u | u in s && !HasId(u, id)
        ensures u in r
      {
        var i :| 0 <= i < |s| && s[i] == u;
        if i < k { assert r[i] == u; } else { assert r[i - 1] == u; }
      }
    }
  }

  /**
   * Deleting the same id from `users` and from a `filteredUsers` drawn from it
   * keeps the view inside the list: ids stay unique, the view stays without
   * duplicates, and every entry left in the view is still in the list.
   */
  lemma RemoveFromBoth(users: seq<User>, filtered: seq<User>, id: Option<string>)
    requires UniqueIds(users) && NoDup(filtered)
    requires forall u :: u in filtered ==> u in users
    ensures UniqueIds(RemoveObjectWithId(users, id))
    ensures NoDup(RemoveObjectWithId(filtered, id))
    ensures forall u :: u in RemoveObjectWithId(filtered, id) ==> u in RemoveObjectWithId(users, id)
    ensures forall u :: u in RemoveObjectWithId(filtered, id) ==> !HasId(u, id)
  {
    SubsetUniqueIds(filtered, users);
    RemoveDropsId(filtered, id);
    RemoveKeepsOthers(users, id);
    RemoveKeepsOthers(filtered, id);
    var f := RemoveObjectWithId(filtered, id);
    assert forall u :: u in f ==> u in multiset(filtered);
  }
}
