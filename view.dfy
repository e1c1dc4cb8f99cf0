/**
 * The module-level state of the table view and its event handlers, each a
 * state transition. Every handler that calls `updateTable` re-sorts
 * `filteredUsers` and returns what that call renders.
 */
module View {
  import opened Users
  import opened Filters
  import Search
  import Sorting
  import Pagination
  import Removal

  /** What one `updateTable` call puts on screen: the rows, the page buttons, the clear button. */
  datatype Rendered = Rendered(rows: seq<User>, buttons: seq<Pagination.PageButton>, clearBtnShown: bool)

  class ViewState {
    var users: seq<User>
    var filteredUsers: seq<User>
    var search: string
    var selectPage: int
    var selectedUserId: Option<string>
    var modalOpen: bool
    var filters: FilterTable

    /**
     * The invariant the handlers keep: both filters present and at most one of
     * them active, a page number of at least 1, unique ids in `users`, and a
     * `filteredUsers` without duplicates whose every entry is in `users`.
     */
    predicate Valid()
      reads this
    {
      WellFormed(filters) && AtMostOneActive(filters) && selectPage >= 1 &&
      UniqueIds(users) && NoDup(filteredUsers) &&
      (forall u :: u in filteredUsers ==> u in users)
    }

    /** `view` is what `updateTable` renders for the current state. */
    predicate Shows(view: Rendered)
      reads this
      requires Valid()
    {
      view.rows == Pagination.CutUsersByPage(filteredUsers, selectPage) &&
      Pagination.ButtonsFor(view.buttons, Pagination.PageCount(|filteredUsers|), selectPage) &&
      view.clearBtnShown == IsClearBtnShown(filters, search)
    }

    /** The state before the fetch has answered. */
    constructor ()
      ensures Valid()
      ensures users == [] && filteredUsers == [] && search == [] && selectPage == 1
      ensures selectedUserId == None && !modalOpen && filters == InitialFilters
    {
      users, filteredUsers := [], [];
      search := [];
      selectPage := 1;
      selectedUserId := None;
      modalOpen := false;
      filters := InitialFilters;
      InitialFiltersInactive();
    }

    /**
     * The fetch callback: both lists become the loaded data, unsorted, and the
     * table and page buttons are drawn from it.
     */
    method Load(data: seq<User>) returns (rows: seq<User>, buttons: seq<Pagination.PageButton>)
      requires Valid() && UniqueIds(data)
      modifies this
      ensures Valid()
      ensures users == data && filteredUsers == data
      ensures unchanged(this`search, this`selectPage, this`filters, this`selectedUserId, this`modalOpen)
      ensures rows == Pagination.CutUsersByPage(data, selectPage)
      ensures Pagination.ButtonsFor(buttons, Pagination.PageCount(|data|), selectPage)
    {
      UniqueIdsNoDup(data);
      users := data;
      filteredUsers := data;
      rows := Pagination.CutUsersByPage(data, selectPage);
      buttons := Pagination.CreatePagination(data, selectPage);
    }

    /**
     * `sortFilter(filteredUsers)`: sorts the list once per active filter, in
     * declaration order; with one active filter the list ends sorted by it.
     */
    method SortFilter()
      requires Valid()
      modifies this`filteredUsers
      ensures Valid()
      ensures filteredUsers == Sorting.SortAll(old(filteredUsers), ActiveFilters(filters))
      ensures multiset(filteredUsers) == multiset(old(filteredUsers))
      ensures ActiveFilters(filters) == [] ==> filteredUsers == old(filteredUsers)
      ensures |ActiveFilters(filters)| == 1 ==>
        var e := ActiveFilters(filters)[0];
        filteredUsers == Sorting.SortBy(old(filteredUsers), e.name, e.isIncreases)
    {
      var active := ActiveFilters(filters);
      ghost var before := filteredUsers;
      for i := 0 to |active|
        invariant filteredUsers == Sorting.SortAll(before, active[..i])
      {
        var e := active[i];
        assert active[..i + 1][..i] == active[..i];
        filteredUsers := Sorting.SortBy(filteredUsers, e.name, e.isIncreases);
      }
      assert active[..|active|] == active;
      Sorting.SortAllWithin(before, active, users);
      if |active| == 1 {
        Sorting.SortAllOne(before, active[0]);
        assert active == [active[0]];
      }
    }

    /** `updateTable()`: re-sort, then draw the clear button, the rows and the page buttons. */
    method UpdateTable() returns (view: Rendered)
      requires Valid()
      modifies this`filteredUsers
      ensures Valid() && Shows(view)
      ensures filteredUsers == Sorting.SortAll(old(filteredUsers), ActiveFilters(filters))
    {
      SortFilter();
      var buttons := Pagination.CreatePagination(filteredUsers, selectPage);
      view := Rendered(Pagination.CutUsersByPage(filteredUsers, selectPage), buttons, IsClearBtnShown(filters, search));
    }

    /**
     * `searchUser(value)`: records the value, goes back to page 1, and
     * recomputes `filteredUsers` (from `users` when the value is empty, from
     * the previous `filteredUsers` otherwise).
     */
    method SearchUser(value: string)
      requires Valid()
      modifies this`search, this`selectPage, this`filteredUsers
      ensures Valid()
      ensures search == value && selectPage == 1
      ensures filteredUsers == Search.SearchUser(old(users), old(filteredUsers), value)
    {
      search := value;
      selectPage := 1;
      if value == [] {
        UniqueIdsNoDup(users);
      }
      filteredUsers := Search.SearchUser(users, filteredUsers, value);
    }

    /** The search field's `input` handler. */
    method OnSearchInput(value: string) returns (view: Rendered)
      requires Valid()
      modifies this
      ensures Valid() && Shows(view)
      ensures search == value && selectPage == 1
      ensures filteredUsers == Sorting.SortAll(Search.SearchUser(old(users), old(filteredUsers), value), ActiveFilters(filters))
      ensures unchanged(this`users, this`filters, this`selectedUserId, this`modalOpen)
    {
      SearchUser(value);
      view := UpdateTable();
    }

    /** `diactivateSortFilters()`: clears `isActive` on every filter, one entry at a time. */
    method DeactivateSortFilters()
      requires Valid()
      modifies this`filters
      ensures Valid()
      ensures filters == Deactivated(old(filters))
    {
      for i := 0 to |AllFields|
        invariant WellFormed(filters)
        invariant forall j :: 0 <= j < i ==> filters.Get(AllFields[j]) == old(filters).Get(AllFields[j]).(isActive := false)
        invariant forall j :: i <= j < |AllFields| ==> filters.Get(AllFields[j]) == old(filters).Get(AllFields[j])
      {
        var f := AllFields[i];
        filters := filters.Set(f, filters.Get(f).(isActive := false));
      }
      assert filters.Get(AllFields[0]) == filters.registrationDate && filters.Get(AllFields[1]) == filters.rating;
    }

    /**
     * The flag updates of a click on the sort button of `f`: every filter
     * deactivated, then `f` active with its direction negated.
     */
    method ToggleFilter(f: Field)
      requires Valid()
      modifies this`filters
      ensures Valid()
      ensures filters == Clicked(old(filters), f)
    {
      DeactivateSortFilters();
      filters := filters.Set(f, filters.Get(f).(isActive := true));
      filters := filters.Set(f, filters.Get(f).(isIncreases := !filters.Get(f).isIncreases));
    }

    /**
     * A click on the sort button of `f`: the flags toggled, then the list
     * re-sorted, which leaves it stably sorted by `f` alone.
     */
    method OnFilterClick(f: Field) returns (view: Rendered)
      requires Valid()
      modifies this
      ensures Valid() && Shows(view)
      ensures filters == Clicked(old(filters), f)
      ensures filteredUsers == Sorting.SortBy(old(filteredUsers), f, filters.Get(f).isIncreases)
      ensures unchanged(this`users, this`search, this`selectPage, this`selectedUserId, this`modalOpen)
    {
      ToggleFilter(f);
      view := UpdateTable();
      Sorting.SortAllOne(old(filteredUsers), filters.Get(f));
    }

    /**
     * The clear button's handler: every filter deactivated and `filteredUsers`
     * a copy of `users`. `search` and `selectPage` are left as they were.
     */
    method OnClear() returns (view: Rendered)
      requires Valid()
      modifies this
      ensures Valid() && Shows(view)
      ensures filters == Deactivated(old(filters))
      ensures filteredUsers == old(users)
      ensures unchanged(this`users, this`search, this`selectPage, this`selectedUserId, this`modalOpen)
    {
      DeactivateSortFilters();
      UniqueIdsNoDup(users);
      filteredUsers := users;
      view := UpdateTable();
    }

    /** A click on page button `n`. */
    method OnPageClick(n: int) returns (view: Rendered)
      requires Valid()
      requires 1 <= n <= Pagination.PageCount(|filteredUsers|)
      modifies this
      ensures Valid() && Shows(view)
      ensures selectPage == n
      ensures filteredUsers == Sorting.SortAll(old(filteredUsers), ActiveFilters(filters))
      ensures unchanged(this`users, this`search, this`filters, this`selectedUserId, this`modalOpen)
    {
      selectPage := n;
      view := UpdateTable();
    }

    /** `openModal(id)`: remembers the row's id and opens the dialog. */
    method OpenModal(id: string)
      requires Valid()
      modifies this`selectedUserId, this`modalOpen
      ensures Valid()
      ensures selectedUserId == Some(id) && modalOpen
    {
      selectedUserId := Some(id);
      modalOpen := true;
    }

    /** The dialog's close button: closes it and forgets the id. */
    method OnCloseModal()
      requires Valid()
      modifies this`selectedUserId, this`modalOpen
      ensures Valid()
      ensures selectedUserId == None && !modalOpen
    {
      modalOpen := false;
      selectedUserId := None;
    }

    /**
     * The list updates of the dialog's delete button: the selected id removed
     * from `users` and from `filteredUsers`.
     */
    method DeleteSelected()
      requires Valid()
      modifies this`users, this`filteredUsers
      ensures Valid()
      ensures users == Removal.RemoveObjectWithId(old(users), selectedUserId)
      ensures filteredUsers == Removal.RemoveObjectWithId(old(filteredUsers), selectedUserId)
      ensures forall u :: u in filteredUsers ==> !Removal.HasId(u, selectedUserId)
    {
      Removal.RemoveFromBoth(users, filteredUsers, selectedUserId);
      users := Removal.RemoveObjectWithId(users, selectedUserId);
      filteredUsers := Removal.RemoveObjectWithId(filteredUsers, selectedUserId);
    }

    /**
     * The dialog's delete button: closes it, removes the selected id from
     * both lists and re-sorts. The selected id is kept.
     */
    method OnConfirmDelete() returns (view: Rendered)
      requires Valid()
      modifies this
      ensures Valid() && Shows(view)
      ensures !modalOpen
      ensures unchanged(this`search, this`selectPage, this`filters, this`selectedUserId)
      ensures users == Removal.RemoveObjectWithId(old(users), selectedUserId)
      ensures filteredUsers ==
        Sorting.SortAll(Removal.RemoveObjectWithId(old(filteredUsers), selectedUserId), ActiveFilters(filters))
    {
      modalOpen := false;
      DeleteSelected();
      view := UpdateTable();
    }
  }
}
