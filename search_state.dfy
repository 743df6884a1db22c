/**
 * The search state of frontend/src/hooks/useSearchState.ts: one state cell of four
 * fields. Each setter replaces one field and copies the rest (`{ ...prev, x }`);
 * `resetState` puts back the initial state.
 */
module SearchState {
  import opened Wrappers

  datatype Location = Location(lat: real, lng: real)

  datatype Filters = Filters(service: int, priceRange: int, rating: real,
                             hasParking: bool, isOpen24h: bool)

  /** `initialFilters`: every number 0 and every flag false. */
  function InitialFilters(): (f: Filters)
    ensures f.service == 0 && f.priceRange == 0 && f.rating == 0.0
    ensures !f.hasParking && !f.isOpen24h
  {
    Filters(0, 0, 0.0, false, false)
  }

  class SearchStateCell {
    var location: Option<Location>
    var filters: Filters
    var isLoading: bool
    var error: Option<string>

    /** The state the hook starts with and `resetState` restores. */
    predicate IsInitial()
      reads this
    {
      location == None && filters == InitialFilters() && !isLoading && error == None
    }

    constructor ()
      ensures IsInitial()
    {
      location, filters, isLoading, error := None, InitialFilters(), false, None;
    }

    method SetLocation(l: Location)
      modifies this
      ensures location == Some(l)
      ensures filters == old(filters) && isLoading == old(isLoading) && error == old(error)
    {
      location := Some(l);
    }

    method SetFilters(f: Filters)
      modifies this
      ensures filters == f
      ensures location == old(location) && isLoading == old(isLoading) && error == old(error)
    {
      filters := f;
    }

    method SetLoading(loading: bool)
      modifies this
      ensures isLoading == loading
      ensures location == old(location) && filters == old(filters) && error == old(error)
    {
      isLoading := loading;
    }

    /** `setError` takes `string | null`: `None` clears the error. */
    method SetError(e: Option<string>)
      modifies this
      ensures error == e
      ensures location == old(location) && filters == old(filters) && isLoading == old(isLoading)
    {
      error := e;
    }

    method ResetState()
      modifies this
      ensures IsInitial()
    {
      location, filters, isLoading, error := None, InitialFilters(), false, None;
    }
  }

  /**
   * Setters are last-write-wins: two location writes leave the state the second one
   * alone leaves, so writing the same location twice is writing it once.
   */
  method LastLocationWins(cell: SearchStateCell, l1: Location, l2: Location)
    modifies cell
    ensures cell.location == Some(l2)
    ensures cell.filters == old(cell.filters) && cell.isLoading == old(cell.isLoading)
    ensures cell.error == old(cell.error)
  {
    cell.SetLocation(l1);
    cell.SetLocation(l2);
  }

  /** From any state, after writes to every field, a reset forgets them all. */
  method SettersThenReset(cell: SearchStateCell, l: Location, f: Filters, loading: bool,
                          e: Option<string>)
    modifies cell
    ensures cell.IsInitial()
  {
    cell.SetLocation(l);
    cell.SetFilters(f);
    cell.SetLoading(loading);
    cell.SetError(e);
    cell.ResetState();
  }
}
