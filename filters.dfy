/**
 * The sort flags of the table view (the `filters` object) and the values
 * derived from them: `activeFilters` and `isClearBtnShown`.
 */
module Filters {
  import opened Users

  /** One entry of the `filters` object; `isIncreases` selects larger keys first. */
  datatype FilterState = FilterState(name: Field, isActive: bool, isIncreases: bool)

  /** The `filters` object: one entry per sortable field, looked up by the field's name. */
  datatype FilterTable = FilterTable(registrationDate: FilterState, rating: FilterState) {

    /** `filters[f]`. */
    function Get(f: Field): (r: FilterState)
      ensures WellFormed(this) ==> r.name == f
    {
      match f
      case RegistrationDate => registrationDate
      case Rating => rating
    }

    /** The table with the entry of `f` replaced by `e`. */
    function Set(f: Field, e: FilterState): (t: FilterTable)
      ensures t.Get(f) == e
      ensures forall g :: g != f ==> t.Get(g) == Get(g)
    {
      match f
      case RegistrationDate => this.(registrationDate := e)
      case Rating => this.(rating := e)
    }
  }

  /** The order `Object.values(filters)` visits the entries in. */
  const AllFields: seq<Field> := [RegistrationDate, Rating]

  /** The table at start-up: both filters inactive, neither increasing. */
  const InitialFilters: FilterTable :=
    FilterTable(FilterState(RegistrationDate, false, false), FilterState(Rating, false, false))

  /** Each entry carries its own field's name. */
  predicate WellFormed(filters: FilterTable)
  {
    filters.registrationDate.name == RegistrationDate && filters.rating.name == Rating
  }

  /** The other sortable field. */
  function Other(f: Field): (g: Field)
    ensures g != f
  {
    match f
    case RegistrationDate => Rating
    case Rating => RegistrationDate
  }

  /** The active entries among those of `fields`, in that order. */
  function ActiveAmong(filters: FilterTable, fields: seq<Field>): seq<FilterState>
  {
    if fields == [] then []
    else
      var rest := ActiveAmong(filters, fields[1..]);
      if filters.Get(fields[0]).isActive then [filters.Get(fields[0])] + rest else rest
  }

  /** `activeFilters()`: the active entries in declaration order. */
  function ActiveFilters(filters: FilterTable): (r: seq<FilterState>)
    ensures r == (if filters.registrationDate.isActive then [filters.registrationDate] else [])
               + (if filters.rating.isActive then [filters.rating] else [])
  {
    assert AllFields[1..] == [Rating] && AllFields[1..][1..] == [];
    var tail := ActiveAmong(filters, [Rating]);
    assert tail == (if filters.rating.isActive then [filters.rating] else []) + ActiveAmong(filters, []);
    ActiveAmong(filters, AllFields)
  }

  /** `isClearBtnShown()`: some filter is active or the search value is non-empty. */
  function IsClearBtnShown(filters: FilterTable, search: string): (r: bool)
    ensures r <==> filters.registrationDate.isActive || filters.rating.isActive || search != []
  {
    |ActiveFilters(filters)| > 0 || search != []
  }

  /** At most one filter is active, as the click and clear handlers keep it. */
  predicate AtMostOneActive(filters: FilterTable)
  {
    |ActiveFilters(filters)| <= 1
  }

  /** The start-up table is well formed and has no active filter. */
  lemma InitialFiltersInactive()
    ensures WellFormed(InitialFilters) && ActiveFilters(InitialFilters) == []
  {
  }

  /** The table after `diactivateSortFilters`: every entry inactive, directions kept. */
  function Deactivated(filters: FilterTable): (r: FilterTable)
    ensures WellFormed(filters) ==> WellFormed(r)
    ensures ActiveFilters(r) == []
    ensures forall f :: !r.Get(f).isActive && r.Get(f).isIncreases == filters.Get(f).isIncreases
  {
    FilterTable(filters.registrationDate.(isActive := false), filters.rating.(isActive := false))
  }

  /**
   * The table after a click on the button of `f`: every entry deactivated,
   * then `f` activated with its direction negated.
   */
  function Clicked(filters: FilterTable, f: Field): (r: FilterTable)
    requires WellFormed(filters)
    ensures WellFormed(r)
    ensures ActiveFilters(r) == [r.Get(f)]
    ensures r.Get(f).isActive && r.Get(f).isIncreases == !filters.Get(f).isIncreases
    ensures !r.Get(Other(f)).isActive && r.Get(Other(f)).isIncreases == filters.Get(Other(f)).isIncreases
  {
    Deactivated(filters).Set(f, FilterState(f, true, !filters.Get(f).isIncreases))
  }

  /** Clicking the same button twice restores its direction and leaves it the only active one. */
  lemma ClickTwice(filters: FilterTable, f: Field)
    requires WellFormed(filters)
    ensures Clicked(Clicked(filters, f), f).Get(f) == filters.Get(f).(isActive := true)
    ensures ActiveFilters(Clicked(Clicked(filters, f), f)) == [filters.Get(f).(isActive := true)]
  {
  }
}
