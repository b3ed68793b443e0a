/** The filter store: which todos the list shows. */
module Filters {

  /**
   * The filter is always one of three values. With three constructors the
   * defensive fall-through of the visible-list rule cannot be reached.
   */
  datatype Filter = All | Active | Completed

  /** The store's initial value. */
  const InitialFilter: Filter := All
}
