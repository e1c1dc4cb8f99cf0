/**
 * The page step of the list pipeline: `cutUsersByPage`, which slices out the
 * rows of the selected page, and the page buttons `createPagination` builds
 * (how many, their numbers, which one is marked current).
 */
module Pagination {
  import opened Users

  /** The default `usersOnPage` of both `cutUsersByPage` and `createPagination`. */
  const UsersOnPage: nat := 5

  function Min(a: int, b: int): int
  {
    if a <= b then a else b
  }

  /** How `Array.prototype.slice` reads an index: negative counts from the end, then clamped. */
  function ClampIndex(i: int, len: nat): (r: nat)
    ensures r <= len
    ensures 0 <= i <= len ==> r == i
    ensures i > len ==> r == len
  {
    if i < 0 then (if len + i < 0 then 0 else len + i)
    else if i < len then i
    else len
  }

  /** `s.slice(start, end)`. */
  function Slice(s: seq<User>, start: int, end: int): (r: seq<User>)
    ensures 0 <= start <= end ==> |r| <= end - start
    ensures 0 <= start <= |s| && start <= end ==> r == s[start..Min(end, |s|)]
    ensures |s| <= start ==> r == []
  {
    var from, to := ClampIndex(start, |s|), ClampIndex(end, |s|);
    if from < to then s[from..to] else []
  }

  /** `cutUsersByPage(data)` with the current `selectPage`: the rows of that page. */
  function CutUsersByPage(data: seq<User>, selectPage: int): (r: seq<User>)
    ensures selectPage >= 1 ==> |r| <= UsersOnPage
    ensures selectPage >= 1 && (selectPage - 1) * UsersOnPage <= |data| ==>
      r == data[(selectPage - 1) * UsersOnPage .. Min(selectPage * UsersOnPage, |data|)]
    ensures selectPage >= 1 && (selectPage - 1) * UsersOnPage >= |data| ==> r == []
  {
    var start := (selectPage - 1) * UsersOnPage;
    var end := start + UsersOnPage;
    Slice(data, start, end)
  }

  /** `Math.ceil(n / usersOnPage)`: the number of page buttons for `n` rows. */
  function PageCount(n: nat): (r: nat)
    ensures r * UsersOnPage >= n
    ensures r > 0 ==> (r - 1) * UsersOnPage < n
    ensures n == 0 <==> r == 0
  {
    (n + UsersOnPage - 1) / UsersOnPage
  }

  /** A page past the last button shows no rows. */
  lemma PastLastPageEmpty(data: seq<User>, selectPage: int)
    requires selectPage > PageCount(|data|)
    ensures CutUsersByPage(data, selectPage) == []
  {
    var c := PageCount(|data|);
    assert (selectPage - 1) * UsersOnPage >= c * UsersOnPage;
  }

  /** Pages 1 to `k` laid end to end. */
  function PagesUpTo(data: seq<User>, k: nat): seq<User>
  {
    if k == 0 then [] else PagesUpTo(data, k - 1) + CutUsersByPage(data, k)
  }

  /** Pages 1 to `k` are the first `k * usersOnPage` rows. */
  lemma {:induction false} PagesPrefix(data: seq<User>, k: nat)
    ensures PagesUpTo(data, k) == data[..Min(k * UsersOnPage, |data|)]
  {
    if k > 0 {
      PagesPrefix(data, k - 1);
      var lo := Min((k - 1) * UsersOnPage, |data|);
      if (k - 1) * UsersOnPage <= |data| {
        assert data[..lo] + data[lo..Min(k * UsersOnPage, |data|)] == data[..Min(k * UsersOnPage, |data|)];
      }
    }
  }

  /** Laying every page end to end gives back the whole list. */
  lemma AllPagesReconstruct(data: seq<User>)
    ensures PagesUpTo(data, PageCount(|data|)) == data
  {
    PagesPrefix(data, PageCount(|data|));
    assert data[..|data|] == data;
  }

  /** Removing one row drops a button exactly when it was alone on the last page. */
  lemma PageCountAfterRemoval(n: nat)
    requires n > 0
    ensures PageCount(n - 1) == if n % UsersOnPage == 1 then PageCount(n) - 1 else PageCount(n)
  {
  }

  /** One `li` of the pagination block: its number and whether it carries the current mark. */
  datatype PageButton = PageButton(number: int, current: bool)

  /** `count` buttons numbered 1 to `count`, the current mark on the one equal to `selectPage`. */
  predicate ButtonsFor(buttons: seq<PageButton>, count: nat, selectPage: int)
  {
    |buttons| == count &&
    forall i :: 0 <= i < |buttons| ==>
      buttons[i].number == i + 1 && (buttons[i].current <==> buttons[i].number == selectPage)
  }

  /** At most one button is current, and one is exactly when `selectPage` names a button. */
  lemma CurrentMark(buttons: seq<PageButton>, count: nat, selectPage: int)
    requires ButtonsFor(buttons, count, selectPage)
    ensures forall i, j :: 0 <= i < j < |buttons| ==> !(buttons[i].current && buttons[j].current)
    ensures (exists i :: 0 <= i < |buttons| && buttons[i].current) <==> 1 <= selectPage <= count
  {
    if 1 <= selectPage <= count {
      assert buttons[selectPage - 1].current;
    }
  }

  /**
   * The buttons `createPagination(data)` appends: for each index a button
   * numbered index + 1; when that number equals `selectPage`, the current
   * mark is first removed from every button so far and then put on it.
   */
  method CreatePagination(data: seq<User>, selectPage: int) returns (buttons: seq<PageButton>)
    ensures ButtonsFor(buttons, PageCount(|data|), selectPage)
  {
    var count := PageCount(|data|);
    buttons := [];
    var index := 0;
    while index < count
      invariant 0 <= index <= count
      invariant ButtonsFor(buttons, index, selectPage)
    {
      var number := index + 1;
      buttons := buttons + [PageButton(number, false)];
      if selectPage == number {
        var j := 0;
        while j < |buttons|
          invariant 0 <= j <= |buttons| == index + 1
          invariant forall i :: 0 <= i < |buttons| ==> buttons[i].number == i + 1 && !buttons[i].current
        {
          buttons := buttons[j := buttons[j].(current := false)];
          j := j + 1;
        }
        buttons := buttons[index := buttons[index].(current := true)];
      }
      index := index + 1;
    }
  }
}
