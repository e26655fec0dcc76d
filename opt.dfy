/** The optional values the catalog's nullable columns hold (SQL NULL is None). */
module Opt {

  datatype Option<+T> = None | Some(value: T)

  /** A nullable size read as a number of bytes: NULL counts as 0. */
  function SizeOr0(o: Option<nat>): (r: nat)
    ensures o.None? ==> r == 0
    ensures o.Some? ==> r == o.value
  {
    if o.Some? then o.value else 0
  }
}
